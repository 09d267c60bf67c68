/**
 The data structure of umalloc.c on values: memory in units of one Header, the circular free list in
 address order, and an owner for every unit obtained from sbrk.
 */
module HeapSpec {

  datatype Header = Header(ptr: nat, size: nat)

  type Memory = map<nat, Header>

  /**
   list[0] is the static header `base`, the rest are the free blocks; live maps the header address of
   every allocated block to its size; own maps every unit obtained from sbrk to the header of the
   free or live block it belongs to.
   */
  datatype Blocks = Blocks(list: seq<nat>, live: map<nat, nat>, own: map<nat, nat>) {
    ghost predicate IsBlock(a: nat) {
      a in live || (a in list && a != list[0])
    }
  }

  ghost function Next(list: seq<nat>, t: nat): nat
    requires t < |list|
  {
    if t + 1 < |list| then list[t + 1] else list[0]
  }

  ghost predicate LinkAt(mem: Memory, list: seq<nat>, i: nat)
    requires i < |list|
  {
    list[i] in mem && mem[list[i]].ptr == Next(list, i)
  }

  ghost predicate Increasing(list: seq<nat>) {
    forall i, j :: 0 <= i < j < |list| ==> list[i] < list[j]
  }

  /** Only base is empty. */
  ghost predicate Sizes(mem: Memory, list: seq<nat>) {
    forall i {:trigger list[i]} :: 0 <= i < |list| ==> list[i] in mem && (mem[list[i]].size == 0 <==> i == 0)
  }

  /** The free list: circular, through base, in address order. */
  ghost predicate Ring(mem: Memory, list: seq<nat>) {
    && |list| >= 1 && list[0] > 0
    && Increasing(list) && Sizes(mem, list)
    && forall i {:trigger LinkAt(mem, list, i)} :: 0 <= i < |list| ==> LinkAt(mem, list, i)
  }

  /** Blocks are made of units from sbrk, no unit is in two blocks, and none is lost. */
  ghost predicate Partition(mem: Memory, b: Blocks) {
    && |b.list| >= 1
    && (forall a :: a in b.live ==> a in mem && mem[a].size == b.live[a] >= 1 && a !in b.list)
    && (forall u :: u in b.own ==> u in mem && u > b.list[0])
    && (forall u :: u in b.own ==> b.IsBlock(b.own[u]) && Inside(mem, b.own[u], u))
    && forall a: nat, u: nat {:trigger Inside(mem, a, u)} :: b.IsBlock(a) && Inside(mem, a, u) ==>
      u in b.own && b.own[u] == a
  }

  /** Unit u belongs to the block whose header is at a. */
  ghost predicate Inside(mem: Memory, a: nat, u: nat) {
    a in mem && a <= u < a + mem[a].size
  }

  ghost predicate HeapOk(mem: Memory, b: Blocks) {
    Ring(mem, b.list) && Partition(mem, b)
  }

  /** Two free blocks in a row that should have been merged. */
  ghost predicate Touch(mem: Memory, list: seq<nat>, i: nat) {
    i + 1 < |list| && list[i] in mem && list[i] + mem[list[i]].size == list[i + 1]
  }

  ghost predicate NoneTouch(mem: Memory, list: seq<nat>) {
    forall i: nat :: !Touch(mem, list, i)
  }

  /** Free blocks do not overlap: a consequence of the partition. */
  lemma FreeDisjoint(mem: Memory, b: Blocks, i: nat)
    requires HeapOk(mem, b) && i + 1 < |b.list|
    ensures b.list[i] + mem[b.list[i]].size <= b.list[i + 1]
  {
    var p, q := b.list[i], b.list[i + 1];
    if i > 0 {
      assert b.IsBlock(p) && b.IsBlock(q);
      assert Inside(mem, q, q);
      var _ := Inside(mem, p, q);
    }
  }

  // ----- inserting a block into the free list -----

  ghost function InsertAt(list: seq<nat>, t: nat, a: nat): seq<nat>
    requires t < |list|
  {
    list[..t + 1] + [a] + list[t + 1..]
  }

  /** The place of a in the list: after list[t]. */
  ghost predicate Place(list: seq<nat>, t: nat, a: nat) {
    t < |list| && list[t] < a && (t + 1 < |list| ==> a < list[t + 1])
  }

  ghost function Linked(mem: Memory, list: seq<nat>, t: nat, a: nat): Memory
    requires t < |list| && a in mem && list[t] in mem
  {
    mem[a := Header(Next(list, t), mem[a].size)][list[t] := Header(a, mem[list[t]].size)]
  }

  lemma InsertAtIndex(list: seq<nat>, t: nat, a: nat)
    requires t < |list|
    ensures |InsertAt(list, t, a)| == |list| + 1
    ensures forall i :: 0 <= i <= |list| ==>
      InsertAt(list, t, a)[i] == if i <= t then list[i] else if i == t + 1 then a else list[i - 1]
    ensures forall x :: x in InsertAt(list, t, a) <==> x in list || x == a
  {
    var list' := InsertAt(list, t, a);
    forall x | x in list ensures x in list' {
      var i :| 0 <= i < |list| && list[i] == x;
      assert list'[if i <= t then i else i + 1] == x;
    }
    assert list'[t + 1] == a;
  }

  lemma RingInsert(mem: Memory, list: seq<nat>, t: nat, a: nat)
    requires Ring(mem, list) && Place(list, t, a) && a in mem && mem[a].size >= 1
    ensures Ring(Linked(mem, list, t, a), InsertAt(list, t, a))
  {
    hide LinkAt, InsertAt, Next;
    RingNodes(mem, list, t);
    var mem', list' := Linked(mem, list, t, a), InsertAt(list, t, a);
    InsertAtIndex(list, t, a);
    InsertIncreasing(list, t, a);
    InsertSizes(mem, list, t, a);
    forall i {:trigger LinkAt(mem', list', i)} | 0 <= i < |list'| ensures LinkAt(mem', list', i) {
      InsertLink(mem, list, t, a, i);
    }
    hide Increasing, Sizes;
  }

  lemma RingNodes(mem: Memory, list: seq<nat>, t: nat)
    requires Ring(mem, list) && t < |list|
    ensures list[t] in mem && (forall i {:trigger list[i]} :: 0 <= i < |list| ==> list[i] in mem)
  {
  }

  lemma InsertIncreasing(list: seq<nat>, t: nat, a: nat)
    requires Increasing(list) && Place(list, t, a)
    ensures Increasing(InsertAt(list, t, a)) && InsertAt(list, t, a)[0] == list[0]
  {
    InsertAtIndex(list, t, a);
    hide InsertAt;
    var list' := InsertAt(list, t, a);
    forall i, j | 0 <= i < j < |list'| ensures list'[i] < list'[j] {
      assert i <= t ==> list[i] <= list[t];
      assert j > t + 1 ==> list[t + 1] <= list[j - 1];
    }
  }

  lemma InsertSizes(mem: Memory, list: seq<nat>, t: nat, a: nat)
    requires Sizes(mem, list) && Increasing(list) && Place(list, t, a) && a in mem && mem[a].size >= 1 && list[t] in mem
    ensures Sizes(Linked(mem, list, t, a), InsertAt(list, t, a))
  {
    hide Next;
    InsertAtIndex(list, t, a);
    hide InsertAt;
    var mem', list' := Linked(mem, list, t, a), InsertAt(list, t, a);
    forall i {:trigger list'[i]} | 0 <= i < |list'| ensures list'[i] in mem' && (mem'[list'[i]].size == 0 <==> i == 0) {
      assert i <= t ==> list'[i] == list[i];
      assert i > t + 1 ==> list'[i] == list[i - 1];
    }
  }

  /** After the insertion every node still points to its successor. */
  lemma InsertLink(mem: Memory, list: seq<nat>, t: nat, a: nat, i: nat)
    requires Ring(mem, list) && Place(list, t, a) && a in mem && i <= |list| && list[t] in mem
    ensures i < |InsertAt(list, t, a)| && LinkAt(Linked(mem, list, t, a), InsertAt(list, t, a), i)
  {
    InsertAtIndex(list, t, a);
    InsertIncreasing(list, t, a);
    hide InsertAt, Sizes;
    if i < t {
      assert LinkAt(mem, list, i) && list[i] < list[t];
    } else if i > t + 1 {
      assert LinkAt(mem, list, i - 1) && list[t] < list[i - 1];
    } else {
      assert LinkAt(mem, list, t);
    }
  }

  /** Blocks, sizes and units stay the same: only pointers and the free flag change. */
  lemma PartitionSame(mem: Memory, b: Blocks, mem': Memory, b': Blocks)
    requires Partition(mem, b)
    requires |b'.list| >= 1 && b'.list[0] == b.list[0] && b'.own == b.own
    requires mem'.Keys == mem.Keys && forall x :: x in mem ==> mem'[x].size == mem[x].size
    requires forall x :: b'.IsBlock(x) <==> b.IsBlock(x)
    requires forall x :: x in b'.live ==> x in b.live && b'.live[x] == b.live[x] && x !in b'.list
    ensures Partition(mem', b')
  {
    forall a: nat, u: nat ensures Inside(mem', a, u) <==> Inside(mem, a, u) {
    }
    hide Inside, Blocks.IsBlock;
  }

  /** A live block becomes free. */
  lemma InsertOk(mem: Memory, b: Blocks, t: nat, a: nat)
    requires HeapOk(mem, b) && a in b.live && Place(b.list, t, a)
    ensures HeapOk(Linked(mem, b.list, t, a), Blocks(InsertAt(b.list, t, a), b.live - {a}, b.own))
  {
    var list' := InsertAt(b.list, t, a);
    InsertAtIndex(b.list, t, a);
    RingInsert(mem, b.list, t, a);
    hide InsertAt, Ring;
    PartitionSame(mem, b, Linked(mem, b.list, t, a), Blocks(list', b.live - {a}, b.own));
  }

  // ----- removing a block from the free list -----

  ghost function RemoveAt(list: seq<nat>, i: nat): seq<nat>
    requires i < |list|
  {
    list[..i] + list[i + 1..]
  }

  lemma RemoveAtIndex(list: seq<nat>, i: nat)
    requires 0 < i < |list| && Increasing(list)
    ensures |RemoveAt(list, i)| == |list| - 1
    ensures forall j :: 0 <= j < |list| - 1 ==> RemoveAt(list, i)[j] == if j < i then list[j] else list[j + 1]
    ensures forall x :: x in RemoveAt(list, i) <==> x in list && x != list[i]
  {
    var list' := RemoveAt(list, i);
    forall x | x in list && x != list[i] ensures x in list' {
      var j :| 0 <= j < |list| && list[j] == x;
      assert list'[if j < i then j else j - 1] == x;
    }
  }

  /** The predecessor of list[i] gets its successor pointer; its size may change too. */
  lemma RingRemove(mem: Memory, list: seq<nat>, i: nat, size: nat)
    requires Ring(mem, list) && 0 < i < |list|
    requires size == 0 <==> i == 1
    ensures Ring(mem[list[i - 1] := Header(mem[list[i]].ptr, size)], RemoveAt(list, i))
  {
    var mem', list' := mem[list[i - 1] := Header(mem[list[i]].ptr, size)], RemoveAt(list, i);
    RemoveAtIndex(list, i);
    hide RemoveAt;
    forall j {:trigger LinkAt(mem', list', j)} | 0 <= j < |list'| ensures LinkAt(mem', list', j) {
      if j < i - 1 {
        assert LinkAt(mem, list, j);
      } else if j == i - 1 {
        assert LinkAt(mem, list, i);
      } else {
        assert LinkAt(mem, list, j + 1);
      }
    }
  }

  ghost function Merged(own: map<nat, nat>, p: nat, q: nat): map<nat, nat> {
    map u | u in own :: if own[u] == q then p else own[u]
  }

  lemma PartitionMerge(mem: Memory, b: Blocks, p: nat, q: nat, list': seq<nat>, h: Header)
    requires Partition(mem, b) && p in mem && q in mem && p != q && b.IsBlock(p) && b.IsBlock(q)
    requires p !in b.live && q !in b.live && p != b.list[0]
    requires p + mem[p].size == q && h.size == mem[p].size + mem[q].size
    requires |list'| >= 1 && list'[0] == b.list[0] && forall x :: x in list' <==> x in b.list && x != q
    ensures Partition(mem[p := h], Blocks(list', b.live, Merged(b.own, p, q)))
  {
    var mem', b' := mem[p := h], Blocks(list', b.live, Merged(b.own, p, q));
    forall a: nat, u: nat | a != q ensures Inside(mem', a, u) <==> Inside(mem, a, u) || (a == p && Inside(mem, q, u)) {
    }
    assert forall x :: b'.IsBlock(x) <==> b.IsBlock(x) && x != q;
    hide Inside, Blocks.IsBlock;
  }

  /** Two free blocks that touch become one. */
  lemma MergeOk(mem: Memory, b: Blocks, i: nat)
    requires HeapOk(mem, b) && i > 0 && Touch(mem, b.list, i)
    ensures var p, q := b.list[i], b.list[i + 1];
      HeapOk(mem[p := Header(mem[q].ptr, mem[p].size + mem[q].size)],
             Blocks(RemoveAt(b.list, i + 1), b.live, Merged(b.own, p, q)))
  {
    var p, q := b.list[i], b.list[i + 1];
    var size := mem[p].size + mem[q].size;
    RingRemove(mem, b.list, i + 1, size);
    RemoveAtIndex(b.list, i + 1);
    assert p > b.list[0] && q > p;
    hide Ring, RemoveAt;
    PartitionMerge(mem, b, p, q, RemoveAt(b.list, i + 1), Header(mem[q].ptr, size));
  }

  lemma InsertTouch(mem: Memory, list: seq<nat>, t: nat, a: nat, k: nat)
    requires Ring(mem, list) && Place(list, t, a) && a in mem && k != t && k != t + 1
    ensures Touch(Linked(mem, list, t, a), InsertAt(list, t, a), k) ==> Touch(mem, list, if k < t then k else k - 1)
  {
    InsertAtIndex(list, t, a);
  }

  lemma MergeTouch(mem: Memory, list: seq<nat>, i: nat, k: nat)
    requires Ring(mem, list) && i > 0 && Touch(mem, list, i)
    ensures var p, q := list[i], list[i + 1];
      Touch(mem[p := Header(mem[q].ptr, mem[p].size + mem[q].size)], RemoveAt(list, i + 1), k) ==>
        Touch(mem, list, if k < i then k else k + 1)
  {
    RemoveAtIndex(list, i + 1);
  }

  // ----- free -----

  /** Memory after free(a + 1), with p the list node found by the search. */
  function Freed(mem: Memory, p: nat, a: nat): Memory
    requires p in mem && a in mem && mem[p].ptr in mem
  {
    var q := mem[p].ptr;
    var m := if a + mem[a].size == q then mem[a := Header(mem[q].ptr, mem[a].size + mem[q].size)]
             else mem[a := mem[a].(ptr := q)];
    if p + m[p].size == a then m[p := Header(m[a].ptr, m[p].size + m[a].size)]
    else m[p := m[p].(ptr := a)]
  }

  /** What free and malloc promise about the units of a block that stays live. */
  ghost predicate Untouched(mem: Memory, b: Blocks, mem': Memory, b': Blocks, a: nat) {
    && a in b'.live && a in b.live && b'.live[a] == b.live[a]
    && forall u :: Inside(mem, a, u) ==> u in mem' && u in mem && mem'[u] == mem[u]
  }

  /** Writing the headers of two blocks that are not x leaves block x untouched. */
  lemma HeadersOnly(mem: Memory, b: Blocks, mem': Memory, b': Blocks, p: nat, a: nat, x: nat)
    requires Partition(mem, b) && mem'.Keys == mem.Keys && forall u :: u in mem && u != p && u != a ==>
      mem'[u] == mem[u]
    requires x in b.live && x in b'.live && b'.live[x] == b.live[x] && x != a && x != p
    requires a in b.live && a in mem && (p == b.list[0] || (p in b.list && p in mem && mem[p].size > 0))
    ensures Untouched(mem, b, mem', b', x)
  {
    assert b.IsBlock(x) && b.IsBlock(a);
    assert Inside(mem, a, a);
    if p != b.list[0] {
      assert b.IsBlock(p) && Inside(mem, p, p);
    }
  }

  lemma TouchingBlocks(mem: Memory, list: seq<nat>, i: nat)
    requires Ring(mem, list) && Touch(mem, list, i)
    ensures i > 0 && i + 1 < |list| && list[i] in mem && list[i + 1] in mem && Increasing(list)
  {
    assert list[i] < list[i + 1];
    assert list[0] in mem && list[i + 1] in mem;
  }

  lemma Merge(mem: Memory, b: Blocks, i: nat) returns (mem': Memory, b': Blocks)
    requires HeapOk(mem, b) && Touch(mem, b.list, i)
    ensures i > 0 && b.list[i + 1] in mem
    ensures var p, q := b.list[i], b.list[i + 1];
      && mem' == mem[p := Header(mem[q].ptr, mem[p].size + mem[q].size)]
      && b' == Blocks(RemoveAt(b.list, i + 1), b.live, Merged(b.own, p, q))
    ensures HeapOk(mem', b') && |b'.list| == |b.list| - 1
    ensures forall k :: 0 <= k < |b'.list| ==> b'.list[k] == if k <= i then b.list[k] else b.list[k + 1]
    ensures forall k: nat :: Touch(mem', b'.list, k) ==> Touch(mem, b.list, if k < i then k else k + 1)
  {
    hide Ring, Partition, Merged, Touch;
    TouchingBlocks(mem, b.list, i);
    var p, q := b.list[i], b.list[i + 1];
    mem' := mem[p := Header(mem[q].ptr, mem[p].size + mem[q].size)];
    b' := Blocks(RemoveAt(b.list, i + 1), b.live, Merged(b.own, p, q));
    MergeOk(mem, b, i);
    RemoveAtIndex(b.list, i + 1);
    forall k: nat ensures Touch(mem', b'.list, k) ==> Touch(mem, b.list, if k < i then k else k + 1) {
      MergeTouch(mem, b.list, i, k);
    }
  }

  /** Memory when block i absorbs its successor, if they touch. */
  ghost function Absorbed(mem: Memory, list: seq<nat>, i: nat): Memory {
    if Touch(mem, list, i) && list[i + 1] in mem then
      mem[list[i] := Header(mem[list[i + 1]].ptr, mem[list[i]].size + mem[list[i + 1]].size)]
    else mem
  }

  lemma AbsorbNext(mem: Memory, b: Blocks, i: nat) returns (b': Blocks)
    requires HeapOk(mem, b) && i < |b.list|
    requires forall k: nat :: Touch(mem, b.list, k) ==> k == i || k + 1 == i
    ensures HeapOk(Absorbed(mem, b.list, i), b') && b'.live == b.live && b'.own.Keys == b.own.Keys
    ensures i < |b'.list| && forall k :: 0 <= k <= i ==> b'.list[k] == b.list[k]
    ensures forall k: nat :: Touch(Absorbed(mem, b.list, i), b'.list, k) ==> k + 1 == i && Touch(mem, b.list, k)
    ensures b.list[i] in mem && b.list[i] in Absorbed(mem, b.list, i)
    ensures Absorbed(mem, b.list, i)[b.list[i]].size >= mem[b.list[i]].size
    ensures Touch(mem, b.list, i) ==> i > 0 && b.list[i + 1] in mem
    ensures Touch(mem, b.list, i) ==> Absorbed(mem, b.list, i)[b.list[i]].size >= mem[b.list[i + 1]].size
    ensures !Touch(mem, b.list, i) ==> b' == b && Absorbed(mem, b.list, i) == mem
  {
    b' := b;
    assert b.list[i] in mem;
    hide HeapOk, RemoveAt;
    if Touch(mem, b.list, i) {
      var mem';
      mem', b' := Merge(mem, b, i);
    }
  }

  lemma FreedIs(mem: Memory, list: seq<nat>, t: nat, a: nat)
    requires Ring(mem, list) && Place(list, t, a) && a in mem && mem[a].size >= 1 && a !in list
    ensures list[t] in mem && mem[list[t]].ptr == Next(list, t) && Next(list, t) in mem
    ensures var m1 := Linked(mem, list, t, a);
      Freed(mem, list[t], a) == Absorbed(Absorbed(m1, InsertAt(list, t, a), t + 1), InsertAt(list, t, a)[..t + 2], t)
  {
    assert LinkAt(mem, list, t) && list[0] in mem;
    InsertAtIndex(list, t, a);
    var list', m1, p, q := InsertAt(list, t, a), Linked(mem, list, t, a), list[t], Next(list, t);
    assert q in mem && (q == list[0] || q == list'[t + 2]);
    assert Touch(m1, list', t + 1) <==> a + mem[a].size == q;
    hide InsertAt, Ring;
    var m2 := Absorbed(m1, list', t + 1);
    assert Touch(m2, list'[..t + 2], t) <==> p + mem[p].size == a;
  }

  lemma SamePrefix(mem: Memory, l1: seq<nat>, l2: seq<nat>, t: nat)
    requires t + 1 < |l1| && t + 1 < |l2| && l1[t] == l2[t] && l1[t + 1] == l2[t + 1]
    ensures Touch(mem, l1, t) <==> Touch(mem, l2, t)
    ensures Absorbed(mem, l1, t) == Absorbed(mem, l2, t)
  {
  }

  /**
   free(a + 1) with p == list[t]: the list stays well formed and coalesced, and only the freed block changes
   hands.
   */
  lemma FreeOk(mem: Memory, b: Blocks, t: nat, a: nat) returns (b': Blocks, g: nat)
    requires HeapOk(mem, b) && NoneTouch(mem, b.list) && a in b.live && Place(b.list, t, a)
    ensures b.list[t] in mem && a in mem && mem[b.list[t]].ptr == Next(b.list, t) && Next(b.list, t) in mem
    ensures var mem' := Freed(mem, b.list[t], a);
      && HeapOk(mem', b') && NoneTouch(mem', b'.list)
      && t < |b'.list| && b'.list[t] == b.list[t] && b'.list[0] == b.list[0]
      && 1 <= g < |b'.list| && b'.list[g] in mem' && mem'[b'.list[g]].size >= mem[a].size
    ensures b'.live == b.live - {a} && b'.own.Keys == b.own.Keys
  {
    assert a !in b.list && Ring(mem, b.list) && mem[a].size >= 1;
    InsertAtIndex(b.list, t, a);
    InsertOk(mem, b, t, a);
    FreedIs(mem, b.list, t, a);
    var m1, b1 := Linked(mem, b.list, t, a), Blocks(InsertAt(b.list, t, a), b.live - {a}, b.own);
    forall k: nat | Touch(m1, b1.list, k) ensures k == t || k == t + 1 {
      if k != t && k != t + 1 { InsertTouch(mem, b.list, t, a, k); }
    }
    assert b1.list[t] == b.list[t] && b1.list[t + 1] == a && m1[a].size == mem[a].size;
    hide InsertAt, HeapOk, Ring, Freed, Linked;
    var b2 := AbsorbNext(m1, b1, t + 1);
    var m2 := Absorbed(m1, b1.list, t + 1);
    b' := AbsorbNext(m2, b2, t);
    var m3 := Absorbed(m2, b2.list, t);
    assert b2.list[t] == b.list[t] && b2.list[t + 1] == a;
    SamePrefix(m2, b2.list, b1.list[..t + 2], t);
    hide Absorbed, Touch;
    assert m3 == Freed(mem, b.list[t], a);
    g := if Touch(m2, b2.list, t) then t else t + 1;
  }

  /** free writes only the header of the freed block and that of its predecessor. */
  lemma FreedLeavesOthers(mem: Memory, b: Blocks, t: nat, a: nat, b': Blocks, x: nat)
    requires HeapOk(mem, b) && a in b.live && t < |b.list| && x in b.live && x != a
    requires b'.live == b.live - {a}
    ensures b.list[t] in mem && a in mem && mem[b.list[t]].ptr in mem
    ensures Untouched(mem, b, Freed(mem, b.list[t], a), b', x)
  {
    assert LinkAt(mem, b.list, t);
    assert b.list[0] in mem && Next(b.list, t) in mem && b.list[t] in b.list;
    HeadersOnly(mem, b, Freed(mem, b.list[t], a), b', b.list[t], a, x);
  }

  // ----- malloc -----

  /** The whole block i > 0 of the list is allocated. */
  lemma TakeWhole(mem: Memory, b: Blocks, i: nat) returns (b': Blocks)
    requires HeapOk(mem, b) && NoneTouch(mem, b.list) && 0 < i < |b.list|
    ensures b.list[i - 1] in mem && b.list[i] in mem
    ensures var p, prev := b.list[i], b.list[i - 1];
      var mem' := mem[prev := mem[prev].(ptr := mem[p].ptr)];
      && HeapOk(mem', b') && NoneTouch(mem', b'.list)
      && |b'.list| == |b.list| - 1 && b'.list[i - 1] == prev && b'.list[0] == b.list[0]
      && b'.live == b.live[p := mem[p].size] && b'.own == b.own && p !in b.live
  {
    hide Ring, Partition, NoneTouch;
    var p, prev := b.list[i], b.list[i - 1];
    ListedBlock(mem, b, i);
    var mem' := mem[prev := mem[prev].(ptr := mem[p].ptr)];
    b' := Blocks(RemoveAt(b.list, i), b.live[p := mem[p].size], b.own);
    RingRemove(mem, b.list, i, mem[prev].size);
    RemoveAtIndex(b.list, i);
    WiderGap(mem, b.list, mem', b'.list, i);
    TakenPartition(mem, b, mem', b', p);
  }

  /** What taking block i > 0 of the list needs to know of it and of its predecessor. */
  lemma ListedBlock(mem: Memory, b: Blocks, i: nat)
    requires HeapOk(mem, b) && 0 < i < |b.list|
    ensures Increasing(b.list)
    ensures var p, prev := b.list[i], b.list[i - 1];
      && p in mem && prev in mem && p != b.list[0] && p != prev && mem[p].size >= 1 && p !in b.live
      && (mem[prev].size == 0 <==> i == 1) && prev + mem[prev].size <= p
  {
    var p, prev := b.list[i], b.list[i - 1];
    assert prev in mem && p in mem && p in b.list && prev in b.list;
    assert p != b.list[0] && b.IsBlock(p) && Inside(mem, p, p);
    FreeDisjoint(mem, b, i - 1);
  }

  /** Taking a whole block rewrites only the pointer of its predecessor in the list. */
  lemma TakeWholeLeavesOthers(mem: Memory, b: Blocks, i: nat, h: Header, b': Blocks, x: nat)
    requires HeapOk(mem, b) && 0 < i < |b.list| && x in b.live && x in b'.live && b'.live[x] == b.live[x]
    ensures b.list[i - 1] in mem && Untouched(mem, b, mem[b.list[i - 1] := h], b', x)
  {
    var prev := b.list[i - 1];
    assert prev in mem && prev in b.list;
    LiveApart(mem, b, prev, x);
  }

  lemma WiderGap(mem: Memory, list: seq<nat>, mem': Memory, list': seq<nat>, i: nat)
    requires Ring(mem, list) && NoneTouch(mem, list) && 0 < i < |list| && |list'| == |list| - 1
    requires forall k :: 0 <= k < |list'| ==> list'[k] == if k < i then list[k] else list[k + 1]
    requires mem'.Keys == mem.Keys && forall x :: x in mem ==> mem'[x].size == mem[x].size
    requires list[i - 1] + mem[list[i - 1]].size <= list[i]
    ensures NoneTouch(mem', list')
  {
    forall k: nat ensures !Touch(mem', list', k) {
      assert !Touch(mem, list, k) && !Touch(mem, list, k + 1);
    }
  }

  /** The header of a free block, or of base, is not part of a live block. */
  lemma LiveApart(mem: Memory, b: Blocks, p: nat, x: nat)
    requires Partition(mem, b) && x in b.live && p in b.list && p in mem && (p == b.list[0] || mem[p].size > 0)
    ensures !Inside(mem, x, p)
  {
    assert b.IsBlock(x);
    if p != b.list[0] {
      assert b.IsBlock(p) && Inside(mem, p, p);
    }
  }

  lemma TakenPartition(mem: Memory, b: Blocks, mem': Memory, b': Blocks, p: nat)
    requires Partition(mem, b) && p in b.list && p != b.list[0] && p in mem && mem[p].size >= 1
    requires mem'.Keys == mem.Keys && forall x :: x in mem ==> mem'[x].size == mem[x].size
    requires |b'.list| >= 1 && b'.list[0] == b.list[0] && forall x :: x in b'.list <==> x in b.list && x != p
    requires b'.live == b.live[p := mem[p].size] && b'.own == b.own
    ensures Partition(mem', b')
  {
    forall a: nat, u: nat ensures Inside(mem', a, u) <==> Inside(mem, a, u) {
    }
    assert forall x :: b'.IsBlock(x) <==> b.IsBlock(x);
    hide Inside, Blocks.IsBlock;
  }

  ghost function Tail(own: map<nat, nat>, p: nat, np: nat): map<nat, nat> {
    map u | u in own :: if own[u] == p && u >= np then np else own[u]
  }

  /** The last n units of block i > 0 of the list are allocated. */
  lemma TakeTail(mem: Memory, b: Blocks, i: nat, n: nat) returns (b': Blocks)
    requires HeapOk(mem, b) && NoneTouch(mem, b.list) && 0 < i < |b.list| && b.list[i] in mem
    requires 1 <= n < mem[b.list[i]].size
    ensures var p := b.list[i];
      var np := p + (mem[p].size - n);
      && np in mem && np !in b.live
      && var mem' := mem[p := mem[p].(size := mem[p].size - n)][np := mem[np].(size := n)];
      && HeapOk(mem', b') && NoneTouch(mem', b'.list)
      && b'.list == b.list && b'.live == b.live[np := n] && b'.own.Keys == b.own.Keys
  {
    var p := b.list[i];
    var np := p + (mem[p].size - n);
    TailIsFresh(mem, b, i, np);
    var mem' := mem[p := mem[p].(size := mem[p].size - n)][np := mem[np].(size := n)];
    b' := Blocks(b.list, b.live[np := n], Tail(b.own, p, np));
    SmallerBlock(mem, b, i, np, n);
    hide Ring, NoneTouch;
    TailPartition(mem, b, p, np, n);
  }

  lemma SmallerBlock(mem: Memory, b: Blocks, i: nat, np: nat, n: nat)
    requires HeapOk(mem, b) && NoneTouch(mem, b.list) && 0 < i < |b.list| && np in mem && np !in b.list
    requires 1 <= n < mem[b.list[i]].size
    ensures var p := b.list[i];
      var mem' := mem[p := mem[p].(size := mem[p].size - n)][np := mem[np].(size := n)];
      Ring(mem', b.list) && NoneTouch(mem', b.list)
  {
    var p := b.list[i];
    var mem' := mem[p := mem[p].(size := mem[p].size - n)][np := mem[np].(size := n)];
    forall k {:trigger LinkAt(mem', b.list, k)} | 0 <= k < |b.list| ensures LinkAt(mem', b.list, k) {
      assert LinkAt(mem, b.list, k);
    }
    forall k: nat ensures !Touch(mem', b.list, k) {
      assert !Touch(mem, b.list, k);
      if k + 1 < |b.list| { FreeDisjoint(mem, b, k); }
    }
  }

  /** Taking the tail of a free block rewrites only headers inside that block. */
  lemma TakeTailLeavesOthers(mem: Memory, b: Blocks, i: nat, np: nat, h: Header, h': Header, b': Blocks, x: nat)
    requires HeapOk(mem, b) && 0 < i < |b.list| && b.list[i] in mem && np != b.list[i] && Inside(mem, b.list[i], np)
    requires x in b.live && x in b'.live && b'.live[x] == b.live[x]
    ensures Untouched(mem, b, mem[b.list[i] := h][np := h'], b', x)
  {
    var p := b.list[i];
    TailIsFresh(mem, b, i, np);
    hide Ring;
    assert b.IsBlock(x) && Inside(mem, p, p) && b.own[p] == p;
    forall u | Inside(mem, x, u) ensures u != p && u != np {
      assert b.own[u] == x;
    }
  }

  lemma TailIsFresh(mem: Memory, b: Blocks, i: nat, np: nat)
    requires HeapOk(mem, b) && 0 < i < |b.list| && b.list[i] in mem && np != b.list[i] && Inside(mem, b.list[i], np)
    ensures np in mem && np !in b.list && np !in b.live && b.IsBlock(b.list[i]) && b.list[i] in b.list
    ensures np in b.own && b.own[np] == b.list[i]
  {
    var p := b.list[i];
    assert p in b.list && p != b.list[0] && b.IsBlock(p);
    assert np in b.own && b.own[np] == p && b.list[0] < np;
    if np in b.list {
      var k :| 0 <= k < |b.list| && b.list[k] == np;
      assert mem[np].size > 0;
    }
    assert Inside(mem, np, np) || !(np in b.list || np in b.live);
    assert !b.IsBlock(np);
  }

  lemma TailPartition(mem: Memory, b: Blocks, p: nat, np: nat, n: nat)
    requires Partition(mem, b) && p in mem && np in mem && b.IsBlock(p) && p !in b.live
    requires 1 <= n < mem[p].size && np == p + (mem[p].size - n) && np !in b.list && np !in b.live
    ensures Partition(mem[p := mem[p].(size := mem[p].size - n)][np := mem[np].(size := n)],
                      Blocks(b.list, b.live[np := n], Tail(b.own, p, np)))
  {
    var mem' := mem[p := mem[p].(size := mem[p].size - n)][np := mem[np].(size := n)];
    var b' := Blocks(b.list, b.live[np := n], Tail(b.own, p, np));
    forall a: nat, u: nat ensures Inside(mem', a, u) <==>
      if a == p then Inside(mem, p, u) && u < np
      else if a == np then Inside(mem, p, u) && u >= np
      else Inside(mem, a, u)
    {
    }
    assert forall x :: b'.IsBlock(x) <==> b.IsBlock(x) || x == np;
    hide Inside, Blocks.IsBlock;
  }

  // ----- sbrk -----

  function Units(a: nat, n: nat): (r: set<nat>)
    ensures forall u :: u in r <==> a <= u < a + n
  {
    if n == 0 then {} else Units(a, n - 1) + {a + n - 1}
  }

  /** The process memory after sbrk returned n units at a; hp->size is set. */
  function Grown(mem: Memory, a: nat, n: nat): (r: Memory)
    requires n >= 1
    ensures r.Keys == mem.Keys + Units(a, n) && r[a] == Header(0, n)
    ensures forall u :: u in mem && u < a ==> r[u] == mem[u]
  {
    (mem + (map u | u in Units(a, n) :: Header(0, 0)))[a := Header(0, n)]
  }

  ghost function Extended(own: map<nat, nat>, a: nat, n: nat): (r: map<nat, nat>)
    requires forall u :: u in own ==> u < a
    ensures r.Keys == own.Keys + Units(a, n)
    ensures forall u :: u in own ==> r[u] == own[u]
    ensures forall u :: u in Units(a, n) ==> r[u] == a
  {
    own + (map u | u in Units(a, n) :: a)
  }

  /** New memory lies beyond everything the allocator has. */
  ghost predicate Beyond(b: Blocks, mem: Memory, a: nat) {
    && (forall u :: u in mem ==> u < a)
    && forall i :: 0 <= i < |b.list| ==> b.list[i] < a
  }

  /** The new region is one more live block, about to be freed into the list. */
  lemma GrowOk(mem: Memory, b: Blocks, a: nat, n: nat) returns (b': Blocks)
    requires HeapOk(mem, b) && NoneTouch(mem, b.list) && Beyond(b, mem, a) && n >= 1
    ensures HeapOk(Grown(mem, a, n), b') && NoneTouch(Grown(mem, a, n), b'.list)
    ensures b'.list == b.list && b'.live == b.live[a := n] && a !in b.live
    ensures b'.own.Keys == b.own.Keys + Units(a, n)
    ensures Place(b'.list, |b'.list| - 1, a)
    ensures forall x :: x in b.live ==> Untouched(mem, b, Grown(mem, a, n), b', x)
  {
    var mem' := Grown(mem, a, n);
    b' := Blocks(b.list, b.live[a := n], Extended(b.own, a, n));
    assert a !in b.list && b.list[0] < a;
    RingSame(mem, mem', b.list);
    hide Ring, NoneTouch;
    GrowPartition(mem, b, a, n);
    forall x | x in b.live ensures Untouched(mem, b, mem', b', x) {
      assert b.IsBlock(x);
    }
  }

  lemma RingSame(mem: Memory, mem': Memory, list: seq<nat>)
    requires Ring(mem, list) && NoneTouch(mem, list)
    requires forall i :: 0 <= i < |list| ==> list[i] in mem' && mem'[list[i]] == mem[list[i]]
    ensures Ring(mem', list) && NoneTouch(mem', list)
  {
    forall k {:trigger LinkAt(mem', list, k)} | 0 <= k < |list| ensures LinkAt(mem', list, k) {
      assert LinkAt(mem, list, k);
    }
    forall k: nat ensures !Touch(mem', list, k) {
      assert !Touch(mem, list, k);
    }
  }

  lemma GrowPartition(mem: Memory, b: Blocks, a: nat, n: nat)
    requires Partition(mem, b) && Beyond(b, mem, a) && n >= 1 && b.list[0] < a && a !in b.list
    ensures Partition(Grown(mem, a, n), Blocks(b.list, b.live[a := n], Extended(b.own, a, n)))
  {
    var mem', b' := Grown(mem, a, n), Blocks(b.list, b.live[a := n], Extended(b.own, a, n));
    hide Grown, Extended;
    forall x: nat, u: nat | b'.IsBlock(x)
      ensures Inside(mem', x, u) <==> if x == a then u in Units(a, n) else Inside(mem, x, u)
      ensures Inside(mem, x, u) && x != a ==> x < a && u < a
    {
      GrowInside(mem, b, a, n, x, u);
    }
    assert forall x :: b'.IsBlock(x) <==> b.IsBlock(x) || x == a;
    hide Inside, Blocks.IsBlock, Units;
    assert a !in b.live && forall x :: x in b.live ==> x < a;
  }

  lemma GrowInside(mem: Memory, b: Blocks, a: nat, n: nat, x: nat, u: nat)
    requires Partition(mem, b) && Beyond(b, mem, a) && n >= 1 && b.list[0] < a && a !in b.list
    requires b.IsBlock(x) || x == a
    ensures Inside(Grown(mem, a, n), x, u) <==> if x == a then u in Units(a, n) else Inside(mem, x, u)
    ensures Inside(mem, x, u) && x != a ==> x < a && u < a
  {
    hide Grown;
    if b.IsBlock(x) && Inside(mem, x, u) {
      assert u in b.own && u in mem;
    }
  }
}
