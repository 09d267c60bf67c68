/**
 Copy-on-write fork with reference-counted frames (vm.c and kalloc.c of Assignment3), on machines
 where swapping is not triggered.

 A page table entry is keyed by process and virtual page. `View` is what the processes see; every
 operation has on it the effect that it would have with private pages.
 */
module CopyOnWrite {
  import opened PrivatePages

  /** PTE_P is presence in the map. */
  datatype Pte = Pte(frame: nat, writable: bool, user: bool)

  type PageTable = map<Key, Pte>

  /** The entries that map a frame. */
  ghost function Mappers(pt: PageTable, f: nat): set<Key> {
    set k | k in pt && pt[k].frame == f
  }

  lemma MapOne(pt: PageTable, k: Key, e: Pte, f: nat)
    requires k !in pt
    ensures Mappers(pt[k := e], f) == if f == e.frame then Mappers(pt, f) + {k} else Mappers(pt, f)
    ensures k !in Mappers(pt, f)
  {
  }

  lemma UnmapOne(pt: PageTable, k: Key, f: nat)
    requires k in pt
    ensures Mappers(pt - {k}, f) == if f == pt[k].frame then Mappers(pt, f) - {k} else Mappers(pt, f)
    ensures k in Mappers(pt, pt[k].frame)
  {
  }

  lemma SameFrame(pt: PageTable, k: Key, e: Pte, f: nat)
    requires k in pt && e.frame == pt[k].frame
    ensures Mappers(pt[k := e], f) == Mappers(pt, f)
  {
  }

  lemma Retarget(pt: PageTable, k: Key, e: Pte, f: nat)
    requires k in pt && e.frame != pt[k].frame
    ensures Mappers(pt[k := e], f) ==
      if f == e.frame then Mappers(pt, f) + {k} else if f == pt[k].frame then Mappers(pt, f) - {k} else Mappers(pt, f)
    ensures k in Mappers(pt, pt[k].frame) && k !in Mappers(pt, e.frame)
  {
  }

  ghost function Seen(frames: map<nat, Page>, pt: PageTable): Views {
    map k | k in pt && pt[k].frame in frames :: frames[pt[k].frame]
  }

  /** The page table gained exactly the entries lo <= vpn < a of the process. */
  ghost predicate EntriesAdded(pt0: PageTable, pt: PageTable, pid: nat, lo: nat, a: nat) {
    pt.Keys == pt0.Keys + Range(pid, lo, a) && forall k :: k in pt0 ==> pt[k] == pt0[k]
  }

  lemma NoneAdded(v: Views, pt: PageTable, pid: nat, lo: nat, zero: Page)
    ensures EntriesAdded(pt, pt, pid, lo, lo) && v + Zeroed(pid, lo, lo, zero) == v
  {
  }

  lemma AddedMeans(pt0: PageTable, pt: PageTable, pid: nat, lo: nat, hi: nat)
    requires EntriesAdded(pt0, pt, pid, lo, hi)
    ensures forall k :: k in pt0 ==> k in pt && pt[k] == pt0[k]
    ensures forall k :: k in pt && k !in pt0 ==> k.pid == pid && lo <= k.vpn < hi
  {
  }

  lemma NotYetAdded(pt0: PageTable, pt: PageTable, pid: nat, lo: nat, a: nat)
    requires EntriesAdded(pt0, pt, pid, lo, a) && Key(pid, a) !in pt0
    ensures Key(pid, a) !in pt
  {
  }

  lemma AddedStep(pt0: PageTable, pt: PageTable, pt': PageTable, pid: nat, lo: nat, a: nat)
    requires EntriesAdded(pt0, pt, pid, lo, a) && Key(pid, a) !in pt0 && lo <= a
    requires Key(pid, a) in pt' && pt' == pt[Key(pid, a) := pt'[Key(pid, a)]]
    ensures EntriesAdded(pt0, pt', pid, lo, a + 1)
  {
    assert Range(pid, lo, a + 1) == Range(pid, lo, a) + {Key(pid, a)};
  }

  lemma UndoGrowth(v: Views, pt0: PageTable, pt: PageTable, pid: nat, lo: nat, a: nat, hi: nat, zero: Page)
    requires lo <= a <= hi && forall x: nat :: lo <= x < hi ==> Key(pid, x) !in pt0
    requires v.Keys == pt0.Keys && EntriesAdded(pt0, pt, pid, lo, a)
    ensures v + Zeroed(pid, lo, a, zero) - Range(pid, lo, hi) == v
    ensures pt - Range(pid, lo, hi) == pt0 && EntriesAdded(pt0, pt0, pid, lo, lo)
  {
    forall k | k in pt0 ensures k !in Range(pid, lo, hi) {
    }
  }

  // ----- invariant -----

  /** Kernel memory management state on values. */
  datatype State = State(pt: PageTable, refs: map<nat, int>, freelist: seq<nat>, frames: map<nat, Page>)

  /** The free list has no duplicates. */
  ghost predicate Listed(list: seq<nat>, frames: set<nat>) {
    && (forall i :: 0 <= i < |list| ==> list[i] in frames)
    && (forall i, j :: 0 <= i < j < |list| ==> list[i] != list[j])
  }

  lemma PopListed(list: seq<nat>, frames: set<nat>)
    requires list != [] && Listed(list, frames)
    ensures Listed(list[1..], frames) && forall g :: g in list[1..] <==> g in list && g != list[0]
  {
    forall g | g in list && g != list[0] ensures g in list[1..] {
      var i :| 0 <= i < |list| && list[i] == g;
      assert list[1..][i - 1] == g;
    }
  }

  lemma PushListed(list: seq<nat>, frames: set<nat>, f: nat)
    requires f in frames && f !in list && Listed(list, frames)
    ensures Listed([f] + list, frames) && forall g :: g in [f] + list <==> g in list || g == f
  {
  }

  ghost predicate Counted(s: State, held: set<nat>, f: nat) {
    && f in s.refs && f in s.frames
    && if f in s.freelist then f !in held && Mappers(s.pt, f) == {} && s.refs[f] <= 0
       else if f in held then Mappers(s.pt, f) == {} && s.refs[f] == 1
       else s.refs[f] == |Mappers(s.pt, f)| >= 1
  }

  /**
   Every frame is on the free list, held by the running operation, or mapped as often as its count
   says; a writable mapping is the only one.
   */
  ghost predicate Inv(s: State, held: set<nat>) {
    && s.refs.Keys == s.frames.Keys
    && (forall f {:trigger Counted(s, held, f)} :: f in s.refs ==> Counted(s, held, f))
    && (forall k :: k in s.pt ==> s.pt[k].frame in s.frames)
    && (forall k :: k in s.pt && s.pt[k].writable ==> s.refs[s.pt[k].frame] == 1)
    && Listed(s.freelist, s.frames.Keys)
    && forall f :: f in held ==> f in s.frames
  }

  /** In short: the count of a mapped frame is the number of its mappings. */
  lemma RefIsMappings(s: State, k: Key)
    requires Inv(s, {}) && k in s.pt
    ensures s.refs[s.pt[k].frame] == |Mappers(s.pt, s.pt[k].frame)|
    ensures s.pt[k].writable ==> Mappers(s.pt, s.pt[k].frame) == {k}
    ensures s.pt[k].frame !in s.freelist
  {
    var f := s.pt[k].frame;
    assert k in Mappers(s.pt, f);
    assert Counted(s, {}, f);
    if s.pt[k].writable {
      Singleton(Mappers(s.pt, f), k);
    }
  }

  /** A writable page shares its frame with no other page. */
  lemma WritableAlone(s: State, k: Key)
    requires Inv(s, {}) && k in s.pt && s.pt[k].writable
    ensures s.refs.Keys == s.frames.Keys && s.pt[k].frame in s.refs && s.refs[s.pt[k].frame] == 1
    ensures forall j :: j in s.pt && j != k ==> s.pt[j].frame != s.pt[k].frame
  {
    forall j | j in s.pt && j != k ensures s.pt[j].frame != s.pt[k].frame {
      RefOne(s, {}, k, j);
    }
  }

  lemma FramesKnown(s: State, held: set<nat>)
    requires Inv(s, held)
    ensures s.refs.Keys == s.frames.Keys && forall j :: j in s.pt ==> s.pt[j].frame in s.frames
  {
  }

  lemma Singleton<T>(s: set<T>, x: T)
    requires |s| == 1 && x in s
    ensures s == {x}
  {
    assert |s - {x}| == 0;
  }

  // ----- kalloc and kfree on values -----

  function Popped(s: State): State
    requires s.freelist != []
  {
    s.(freelist := s.freelist[1..], refs := s.refs[s.freelist[0] := 1])
  }

  lemma PoppedInv(s: State, held: set<nat>)
    requires Inv(s, held) && s.freelist != []
    ensures Inv(Popped(s), held + {s.freelist[0]}) && s.freelist[0] !in held
    ensures s.freelist[0] in s.frames && Mappers(s.pt, s.freelist[0]) == {}
  {
    var f, t := s.freelist[0], Popped(s);
    assert f in s.freelist && f in s.frames;
    PopListed(s.freelist, s.frames.Keys);
    hide Listed;
    assert Counted(s, held, f);
    forall g | g in t.refs ensures Counted(t, held + {f}, g) {
      assert Counted(s, held, g);
    }
    forall k | k in t.pt && t.pt[k].writable ensures t.refs[t.pt[k].frame] == 1 {
      assert k in Mappers(s.pt, s.pt[k].frame);
    }
  }

  /** kfree on a frame whose only mapping or holder has just gone: the count drops, and at 0 the frame is free. */
  function Dropped(s: State, f: nat, junk: Page): State
    requires f in s.refs
  {
    if s.refs[f] - 1 > 0 then s.(refs := s.refs[f := s.refs[f] - 1])
    else s.(refs := s.refs[f := s.refs[f] - 1], freelist := [f] + s.freelist, frames := s.frames[f := junk])
  }

  /** Unmapping a page and dropping its frame. */
  lemma UnmapInv(s: State, held: set<nat>, k: Key, junk: Page)
    requires Inv(s, held) && k in s.pt
    ensures s.pt[k].frame in s.refs
    ensures Inv(Dropped(s, s.pt[k].frame, junk).(pt := s.pt - {k}), held)
    ensures Seen(Dropped(s, s.pt[k].frame, junk).frames, s.pt - {k}) == Seen(s.frames, s.pt) - {k}
  {
    var f := s.pt[k].frame;
    var t := Dropped(s, f, junk).(pt := s.pt - {k});
    assert Counted(s, held, f);
    UnmapOne(s.pt, k, f);
    assert f !in s.freelist && f !in held;
    PushListed(s.freelist, s.frames.Keys, f);
    assert t.frames.Keys == s.frames.Keys;
    hide Listed, Seen;
    forall g | g in t.refs ensures Counted(t, held, g) {
      assert Counted(s, held, g);
      UnmapOne(s.pt, k, g);
    }
    forall j | j in t.pt && t.pt[j].writable ensures t.refs[t.pt[j].frame] == 1 {
      RefOne(s, held, j, k);
    }
    UnmapSeen(s, held, k, junk);
  }

  lemma UnmapSeen(s: State, held: set<nat>, k: Key, junk: Page)
    requires Inv(s, held) && k in s.pt
    ensures s.pt[k].frame in s.refs
    ensures Seen(Dropped(s, s.pt[k].frame, junk).frames, s.pt - {k}) == Seen(s.frames, s.pt) - {k}
  {
    hide Counted, Mappers, Listed;
    var f := s.pt[k].frame;
    var t := Dropped(s, f, junk).(pt := s.pt - {k});
    forall j | j in t.pt ensures t.pt[j].frame in s.frames && t.frames[t.pt[j].frame] == s.frames[t.pt[j].frame] {
      if t.pt[j].frame == f {
        TwoMappings(s, held, j, k);
      }
    }
  }

  lemma TwoMappings(s: State, held: set<nat>, j: Key, k: Key)
    requires Inv(s, held) && j in s.pt && k in s.pt && j != k && s.pt[j].frame == s.pt[k].frame
    ensures s.pt[k].frame in s.refs && s.refs[s.pt[k].frame] >= 2
  {
    hide Listed;
    var f := s.pt[k].frame;
    assert Counted(s, held, f) && j in Mappers(s.pt, f) && k in Mappers(s.pt, f);
    TwoElements(Mappers(s.pt, f), j, k);
  }

  lemma TwoElements<T>(s: set<T>, x: T, y: T)
    requires x in s && y in s && x != y
    ensures |s| >= 2
  {
    assert y in s - {x};
    assert |s - {x}| >= 1;
  }

  lemma RefOne(s: State, held: set<nat>, j: Key, k: Key)
    requires Inv(s, held) && j in s.pt && k in s.pt && j != k && s.pt[j].writable
    ensures s.pt[j].frame != s.pt[k].frame
  {
    var f := s.pt[j].frame;
    assert Counted(s, held, f) && j in Mappers(s.pt, f);
    Singleton(Mappers(s.pt, f), j);
    assert k !in Mappers(s.pt, f);
  }

  /** A frame held by the running operation gets its first mapping. */
  lemma MapHeldInv(s: State, held: set<nat>, k: Key, f: nat, user: bool)
    requires Inv(s, held + {f}) && f !in held && k !in s.pt
    ensures f in s.frames && Inv(s.(pt := s.pt[k := Pte(f, true, user)]), held)
    ensures Seen(s.frames, s.pt[k := Pte(f, true, user)]) == Seen(s.frames, s.pt)[k := s.frames[f]]
  {
    var t := s.(pt := s.pt[k := Pte(f, true, user)]);
    assert Counted(s, held + {f}, f);
    forall g | g in t.refs ensures Counted(t, held, g) {
      assert Counted(s, held + {f}, g);
      MapOne(s.pt, k, Pte(f, true, user), g);
    }
    forall j | j in s.pt ensures s.pt[j].frame != f {
      assert j in Mappers(s.pt, s.pt[j].frame);
    }
  }

  /** copyuvm on one page: the parent loses write permission, the child maps the same frame, the count grows. */
  function Shared(s: State, k: Key, c: Key): State
    requires k in s.pt && s.pt[k].frame in s.refs
  {
    var e := s.pt[k].(writable := false);
    s.(pt := s.pt[k := e][c := e], refs := s.refs[e.frame := s.refs[e.frame] + 1])
  }

  lemma ShareSeen(s: State, k: Key, c: Key)
    requires k in s.pt && c !in s.pt && s.pt[k].frame in s.refs && s.pt[k].frame in s.frames
    ensures Seen(s.frames, Shared(s, k, c).pt) == Seen(s.frames, s.pt)[c := s.frames[s.pt[k].frame]]
  {
  }

  lemma ShareInv(s: State, held: set<nat>, k: Key, c: Key)
    requires Inv(s, held) && k in s.pt && c !in s.pt
    ensures s.pt[k].frame in s.refs && s.pt[k].frame in s.frames && Inv(Shared(s, k, c), held)
    ensures Seen(s.frames, Shared(s, k, c).pt) == Seen(s.frames, s.pt)[c := s.frames[s.pt[k].frame]]
  {
    var f, t := s.pt[k].frame, Shared(s, k, c);
    assert f in s.refs;
    ShareSeen(s, k, c);
    hide Seen, Listed;
    forall g | g in t.refs ensures Counted(t, held, g) {
      ShareCounted(s, held, k, c, g);
    }
    hide Counted;
    forall j | j in t.pt && t.pt[j].writable ensures t.refs[t.pt[j].frame] == 1 {
      RefOne(s, held, j, k);
    }
  }

  lemma ShareCounted(s: State, held: set<nat>, k: Key, c: Key, g: nat)
    requires Inv(s, held) && k in s.pt && c !in s.pt && g in s.refs && s.pt[k].frame in s.refs
    ensures Counted(Shared(s, k, c), held, g)
  {
    var f, e := s.pt[k].frame, s.pt[k].(writable := false);
    assert Counted(s, held, g) && Counted(s, held, f) && k in Mappers(s.pt, f);
    SameFrame(s.pt, k, e, g);
    MapOne(s.pt[k := e], c, e, g);
    hide Mappers, Inv;
  }

  /** The permission change alone. */
  lemma ProtectInv(s: State, held: set<nat>, k: Key)
    requires Inv(s, held) && k in s.pt
    ensures Inv(s.(pt := s.pt[k := s.pt[k].(writable := false)]), held)
    ensures Seen(s.frames, s.pt[k := s.pt[k].(writable := false)]) == Seen(s.frames, s.pt)
  {
    var e := s.pt[k].(writable := false);
    forall g | g in s.refs ensures Counted(s.(pt := s.pt[k := e]), held, g) {
      assert Counted(s, held, g);
      SameFrame(s.pt, k, e, g);
    }
  }

  /** cowalloc on a frame with one mapping: write permission comes back. */
  lemma UnprotectInv(s: State, held: set<nat>, k: Key)
    requires Inv(s, held) && k in s.pt && s.refs[s.pt[k].frame] == 1
    ensures Inv(s.(pt := s.pt[k := s.pt[k].(writable := true)]), held)
    ensures Seen(s.frames, s.pt[k := s.pt[k].(writable := true)]) == Seen(s.frames, s.pt)
  {
    var e := s.pt[k].(writable := true);
    forall g | g in s.refs ensures Counted(s.(pt := s.pt[k := e]), held, g) {
      assert Counted(s, held, g);
      SameFrame(s.pt, k, e, g);
    }
  }

  /** cowalloc on a shared frame: the entry moves to a private copy and the old count drops. */
  function Copied(s: State, k: Key, f: nat): State
    requires k in s.pt && s.pt[k].frame in s.refs && s.pt[k].frame in s.frames && f in s.frames
  {
    var g := s.pt[k].frame;
    s.(frames := s.frames[f := s.frames[g]], pt := s.pt[k := Pte(f, true, true)], refs := s.refs[g := s.refs[g] - 1])
  }

  lemma CopyInv(s: State, held: set<nat>, k: Key, f: nat)
    requires Inv(s, held + {f}) && f !in held && k in s.pt && s.pt[k].frame in s.refs && s.refs[s.pt[k].frame] > 1
    ensures f in s.frames && s.pt[k].frame in s.frames && Inv(Copied(s, k, f), held)
    ensures Seen(Copied(s, k, f).frames, Copied(s, k, f).pt) == Seen(s.frames, s.pt)
  {
    HeldUnmapped(s, held, f);
    var t := Copied(s, k, f);
    forall g | g in t.refs ensures Counted(t, held, g) {
      CopyCounted(s, held, k, f, g);
    }
    assert Counted(s, held + {f}, f);
    hide Counted;
    forall j | j in t.pt && t.pt[j].writable ensures t.refs[t.pt[j].frame] == 1 {
      if j != k {
        RefOne(s, held + {f}, j, k);
      }
    }
  }

  lemma HeldUnmapped(s: State, held: set<nat>, f: nat)
    requires Inv(s, held + {f})
    ensures f in s.frames && s.refs[f] == 1 && f !in s.freelist
    ensures forall j :: j in s.pt ==> s.pt[j].frame != f && s.pt[j].frame in s.frames
  {
    assert Counted(s, held + {f}, f);
    forall j | j in s.pt ensures s.pt[j].frame != f {
      assert j in Mappers(s.pt, s.pt[j].frame);
    }
  }

  lemma CopyCounted(s: State, held: set<nat>, k: Key, f: nat, g: nat)
    requires Inv(s, held + {f}) && f !in held && k in s.pt && g in s.refs && s.pt[k].frame in s.refs
    requires s.refs[s.pt[k].frame] > 1
    requires s.pt[k].frame in s.frames && f in s.frames && f in s.refs
    ensures Counted(Copied(s, k, f), held, g)
  {
    var g0 := s.pt[k].frame;
    assert Counted(s, held + {f}, f) && Counted(s, held + {f}, g0) && Counted(s, held + {f}, g) &&
      k in Mappers(s.pt, g0);
    Retarget(s.pt, k, Pte(f, true, true), g);
    hide Mappers, Inv;
  }

  /** A store through a writable entry is seen by its process only. */
  lemma StoreInv(s: State, k: Key, data: Page)
    requires Inv(s, {}) && k in s.pt && s.pt[k].writable
    ensures s.pt[k].frame in s.frames && Inv(s.(frames := s.frames[s.pt[k].frame := data]), {})
    ensures Seen(s.frames[s.pt[k].frame := data], s.pt) == Seen(s.frames, s.pt)[k := data]
  {
    var t := s.(frames := s.frames[s.pt[k].frame := data]);
    WritableAlone(s, k);
    forall g | g in t.refs ensures Counted(t, {}, g) {
      assert Counted(s, {}, g);
    }
    StoreSeen(s, k, data);
    hide Seen, Counted;
  }

  lemma StoreSeen(s: State, k: Key, data: Page)
    requires k in s.pt && s.pt[k].frame in s.frames
    requires forall j :: j in s.pt && j != k ==> s.pt[j].frame != s.pt[k].frame
    ensures Seen(s.frames[s.pt[k].frame := data], s.pt) == Seen(s.frames, s.pt)[k := data]
  {
  }

  /** The page table after the first i pages were shared: the entries of parent and child are read-only. */
  ghost predicate EntriesCopied(pt0: PageTable, pt: PageTable, parent: nat, child: nat, i: nat) {
    && pt.Keys == pt0.Keys + ChildKeys(child, i)
    && (forall k :: k in pt0 ==>
          pt[k] == if k.pid == parent && k.vpn < i then pt0[k].(writable := false) else pt0[k])
    && forall j: nat :: j < i && Key(parent, j) in pt0 ==>
         pt[Key(child, j)] == pt0[Key(parent, j)].(writable := false)
  }

  lemma CopyMeans(pt0: PageTable, pt: PageTable, parent: nat, child: nat, n: nat)
    requires EntriesCopied(pt0, pt, parent, child, n) && forall i: nat :: i < n ==> Key(parent, i) in pt0
    ensures forall i: nat :: i < n ==>
      && Key(child, i) in pt && pt[Key(child, i)] == pt0[Key(parent, i)].(writable := false)
      && Key(parent, i) in pt && pt[Key(parent, i)] == pt0[Key(parent, i)].(writable := false)
    ensures forall k :: k in pt && k !in pt0 ==> k.pid == child && k.vpn < n
    ensures forall k :: k in pt0 ==>
      k in pt && pt[k] == if k.pid == parent && k.vpn < n then pt0[k].(writable := false) else pt0[k]
  {
    forall i: nat | i < n ensures Key(child, i) in pt {
      assert Key(child, i) in ChildKeys(child, n);
    }
  }

  lemma CopyNone(pt: PageTable, parent: nat, child: nat)
    ensures EntriesCopied(pt, pt, parent, child, 0)
  {
  }

  lemma CopiedKeys(pt0: PageTable, pt: PageTable, parent: nat, child: nat, i: nat)
    requires EntriesCopied(pt0, pt, parent, child, i) && Key(parent, i) in pt0 && parent != child
    requires forall k :: k in pt0 ==> k.pid != child
    ensures Key(parent, i) in pt && Key(child, i) !in pt
    ensures forall k :: k in pt && k.pid == child ==> k.vpn < i
  {
  }

  lemma CopyStep(pt0: PageTable, pt: PageTable, pt': PageTable, parent: nat, child: nat, i: nat)
    requires EntriesCopied(pt0, pt, parent, child, i) && Key(parent, i) in pt0 && Key(parent, i) in pt
    requires parent != child
    requires forall k :: k in pt0 ==> k.pid != child
    requires var e := pt[Key(parent, i)].(writable := false); pt' == pt[Key(parent, i) := e][Key(child, i) := e]
    ensures EntriesCopied(pt0, pt', parent, child, i + 1)
  {
  }

  lemma CopyUndone(pt0: PageTable, pt: PageTable, pt1: PageTable, pt2: PageTable, parent: nat, child: nat, i: nat)
    requires EntriesCopied(pt0, pt, parent, child, i) && Key(parent, i) in pt && parent != child
    requires forall k :: k in pt0 ==> k.pid != child
    requires pt1 == pt[Key(parent, i) := pt[Key(parent, i)].(writable := false)]
    requires pt2 == pt1 - Range(child, 0, i)
    ensures pt2.Keys == pt0.Keys
    ensures forall k :: k in pt0 ==>
      k in pt2 && pt2[k] == if k.pid == parent && k.vpn <= i then pt0[k].(writable := false) else pt0[k]
  {
    hide EntriesCopied, Range;
    CopiedEntries(pt0, pt, parent, child, i);
    forall k | k in pt0 ensures k in pt2 {
      assert k !in Range(child, 0, i);
    }
  }

  lemma CopiedEntries(pt0: PageTable, pt: PageTable, parent: nat, child: nat, i: nat)
    requires EntriesCopied(pt0, pt, parent, child, i)
    ensures forall k :: k in pt <==> k in pt0 || (k.pid == child && k.vpn < i)
    ensures forall k :: k in pt0 ==>
      pt[k] == if k.pid == parent && k.vpn < i then pt0[k].(writable := false) else pt0[k]
  {
  }

  // ----- the kernel -----

  class Kernel {
    var pt: PageTable
    var refs: map<nat, int>        // rmap.ref
    var freelist: seq<nat>         // kmem.freelist
    var numFreePages: nat          // kmem.num_free_pages
    var frames: map<nat, Page>     // physical memory
    const zeroPage: Page := Filled(0)
    const junkPage: Page := Filled(1)

    /** No frame is known before freerange. */
    constructor ()
      ensures Inv(S(), {}) && pt == map[] && numFreePages == 0 && frames == map[]
    {
      pt, refs, freelist, numFreePages, frames := map[], map[], [], 0, map[];
    }

    function S(): State
      reads this
    {
      State(pt, refs, freelist, frames)
    }

    ghost predicate Valid(held: set<nat>)
      reads this
    {
      Inv(S(), held) && numFreePages == |freelist|
    }

    ghost function View(): Views
      reads this
    {
      Seen(frames, pt)
    }

    /** freerange on one page: its count starts at 0 and kfree makes it -1. */
    method FreeRangePage(f: nat)
      requires Valid({}) && f !in frames
      modifies this
      ensures Valid({}) && freelist == [f] + old(freelist) && View() == old(View()) && pt == old(pt)
      ensures frames == old(frames)[f := Filled(1)] && forall g :: g in old(refs) ==> refs[g] == old(refs)[g]
    {
      hide Inv, Seen;
      FramesKnown(S(), {});
      NewFrame(S(), f, junkPage);
      frames := frames[f := junkPage];
      refs := refs[f := 0];
      Kfree(f);
      assert refs == old(refs)[f := -1] && frames == old(frames)[f := junkPage];
    }

    lemma NewFrame(s: State, f: nat, page: Page)
      requires Inv(s, {}) && f !in s.frames
      ensures Inv(State(s.pt, s.refs[f := -1], [f] + s.freelist, s.frames[f := page]), {})
      ensures Seen(s.frames[f := page], s.pt) == Seen(s.frames, s.pt)
    {
      var t := State(s.pt, s.refs[f := -1], [f] + s.freelist, s.frames[f := page]);
      assert Mappers(s.pt, f) == {};
      assert forall g :: g in t.freelist <==> g in s.freelist || g == f;
      forall g | g in t.refs ensures Counted(t, {}, g) {
        if g != f { assert Counted(s, {}, g); }
      }
      hide Counted;
    }

    /** kfree: the count drops; a frame that no one maps any more is filled with junk and freed. */
    method Kfree(f: nat)
      requires f in refs && f in frames
      modifies this`refs, this`frames, this`freelist, this`numFreePages
      ensures S() == Dropped(old(S()), f, junkPage)
      ensures refs == old(refs)[f := old(refs)[f] - 1]
      ensures refs[f] > 0 ==> freelist == old(freelist) && frames == old(frames)
      ensures refs[f] <= 0 ==> freelist == [f] + old(freelist) && frames == old(frames)[f := Filled(1)]
      ensures old(numFreePages == |freelist|) ==> numFreePages == |freelist|
    {
      refs := refs[f := refs[f] - 1];
      if refs[f] > 0 {
        return;
      }
      frames := frames[f := junkPage];
      freelist := [f] + freelist;
      numFreePages := numFreePages + 1;
    }

    /** kalloc, when swapping is not triggered: the first free frame, with count 1. */
    method Kalloc(ghost held: set<nat>) returns (ok: bool, f: nat)
      requires Valid(held)
      modifies this`refs, this`freelist, this`numFreePages
      ensures ok <==> old(freelist) != []
      ensures !ok ==> S() == old(S()) && Valid(held)
      ensures ok ==> f == old(freelist)[0] && S() == Popped(old(S())) && f !in held && Valid(held + {f})
      ensures ok ==> f in frames && Mappers(pt, f) == {}
      ensures ok ==> freelist == old(freelist)[1..] && refs == old(refs)[f := 1]
    {
      if freelist == [] {
        return false, 0;
      }
      PoppedInv(S(), held);
      f := freelist[0];
      freelist := freelist[1..];
      numFreePages := numFreePages - 1;
      refs := refs[f := 1];
      ok := true;
    }

    /**
     cowalloc: afterwards the page is writable and private, and every process sees what it saw.
     ok == false is the panic on kalloc.
     */
    method Cowalloc(k: Key) returns (ok: bool)
      requires Valid({}) && k in pt
      modifies this
      ensures Valid({}) && View() == old(View())
      ensures ok <==> old(refs)[old(pt)[k].frame] == 1 || old(freelist) != []
      ensures ok ==> k in pt && pt[k].writable && pt.Keys == old(pt).Keys
      ensures !ok ==> S() == old(S())
      ensures forall j :: j in old(pt) && j != k ==> j in pt && pt[j] == old(pt)[j]
      ensures old(pt)[k].user && ok ==> pt[k].user
      ensures ok ==> pt[k].frame in frames && old(pt)[k].frame in old(frames)
      ensures ok ==> frames[pt[k].frame] == old(frames)[old(pt)[k].frame]
      ensures ok ==> pt[k].frame in refs && refs[pt[k].frame] == 1
      ensures ok ==> pt[k].frame == if old(refs)[old(pt)[k].frame] > 1 then old(freelist)[0] else old(pt)[k].frame
      ensures ok ==> forall j :: j in pt && j != k ==> pt[j].frame != pt[k].frame
      ensures ok ==> forall g :: g in old(frames) && g != pt[k].frame ==> g in frames && frames[g] == old(frames)[g]
    {
      hide Inv, Seen;
      PteCounted(S(), k);
      var pa := pt[k].frame;
      if refs[pa] > 1 {
        var f;
        ok, f := Kalloc({});
        if ok {
          CopyInv(S(), {}, k, f);
          frames := frames[f := frames[pa]];
          pt := pt[k := Pte(f, true, true)];
          refs := refs[pa := refs[pa] - 1];
        }
      } else {
        UnprotectInv(S(), {}, k);
        pt := pt[k := pt[k].(writable := true)];
        ok := true;
      }
      if ok {
        WritableAlone(S(), k);
      }
    }

    lemma PteCounted(s: State, k: Key)
      requires Inv(s, {}) && k in s.pt
      ensures s.pt[k].frame in s.refs && s.pt[k].frame in s.frames && s.refs[s.pt[k].frame] >= 1
      ensures s.freelist != [] ==> s.freelist[0] != s.pt[k].frame
    {
      RefIsMappings(s, k);
      assert Counted(s, {}, s.pt[k].frame) && k in Mappers(s.pt, s.pt[k].frame);
    }

    /** A user store: through the page fault handler if the entry is not writable, then retried. */
    method Store(k: Key, data: Page) returns (ok: bool)
      requires Valid({}) && k in pt && pt[k].user
      modifies this
      ensures Valid({}) && pt.Keys == old(pt).Keys
      ensures View() == if ok then old(View())[k := data] else old(View())
      ensures ok <==> old(pt)[k].writable || old(refs)[old(pt)[k].frame] == 1 || old(freelist) != []
      ensures ok ==> pt[k].frame in frames && frames[pt[k].frame] == data
      ensures ok ==> pt[k].writable && pt[k].user
      ensures forall j :: j in pt && j != k ==>
        pt[j] == old(pt)[j] && pt[j].frame in frames && pt[j].frame in old(frames) &&
        frames[pt[j].frame] == old(frames)[pt[j].frame]
    {
      hide Inv, Seen;
      FramesKnown(S(), {});
      ok := true;
      if !pt[k].writable {
        ok := Cowalloc(k);
      }
      if ok {
        WritableAlone(S(), k);
        StoreInv(S(), k, data);
        frames := frames[pt[k].frame := data];
      }
    }

    /** One page of deallocuvm: if it is present, its frame is dropped and the entry cleared. */
    method UnmapPage(k: Key)
      requires Valid({})
      modifies this
      ensures Valid({}) && View() == old(View()) - {k} && pt == old(pt) - {k}
    {
      hide Inv, Seen;
      ViewKeys(S());
      if k in pt {
        UnmapInv(S(), {}, k, junkPage);
        PteCounted(S(), k);
        Kfree(pt[k].frame);
        pt := pt - {k};
      }
    }

    /** The pages lo <= vpn < hi of a process are unmapped and their frames dropped (deallocuvm). */
    method Deallocuvm(pid: nat, lo: nat, hi: nat)
      requires Valid({})
      modifies this
      ensures Valid({})
      ensures View() == old(View()) - Range(pid, lo, hi) && pt == old(pt) - Range(pid, lo, hi)
      ensures forall k :: k in pt <==> k in old(pt) && !(k.pid == pid && lo <= k.vpn < hi)
      ensures forall k :: k in pt ==> pt[k] == old(pt)[k]
    {
      hide Inv, Seen, Range;
      var a := lo;
      NoPages(pid, lo, lo);
      while a < hi
        invariant Valid({}) && lo <= a && (if lo <= hi then a <= hi else a == lo)
        invariant View() == old(View()) - Range(pid, lo, a) && pt == old(pt) - Range(pid, lo, a)
      {
        var k := Key(pid, a);
        UnmapPage(k);
        RangeStep(pid, lo, a);
        MinusTwice(old(View()), Range(pid, lo, a), k);
        MinusTwice(old(pt), Range(pid, lo, a), k);
        a := a + 1;
      }
      if lo > hi {
        NoPages(pid, lo, hi);
      }
    }

    /** freevm: every page of the process goes; pages that others share stay. */
    method Freevm(pid: nat, pages: nat)
      requires Valid({}) && forall k :: k in pt && k.pid == pid ==> k.vpn < pages
      modifies this
      ensures Valid({}) && View() == old(View()) - Range(pid, 0, pages)
      ensures pt == old(pt) - Range(pid, 0, pages) && forall k :: k in pt ==> k.pid != pid
    {
      Deallocuvm(pid, 0, pages);
    }

    /** One page of allocuvm: a zeroed frame, mapped writable for the user unless mappages fails. */
    method AddPage(k: Key, mapFails: bool) returns (ok: bool)
      requires Valid({}) && k !in pt
      modifies this
      ensures Valid({})
      ensures ok <==> old(freelist) != [] && !mapFails
      ensures ok ==> View() == old(View())[k := zeroPage] && pt.Keys == old(pt).Keys + {k} && pt == old(pt)[k := pt[k]]
      ensures ok ==> |freelist| == |old(freelist)| - 1
      ensures ok ==> pt[k].user && pt[k].writable && pt[k].frame in refs && refs[pt[k].frame] == 1
      ensures ok ==> pt[k].frame in frames && frames[pt[k].frame] == Filled(0)
      ensures !ok ==> View() == old(View()) && pt == old(pt)
    {
      hide Inv, Seen;
      var f;
      ok, f := Kalloc({});
      if !ok {
        return;
      }
      HeldFrameInv(S(), f, zeroPage);
      frames := frames[f := zeroPage];
      if mapFails {
        DropHeldInv(S(), f, junkPage);
        Kfree(f);
        return false;
      }
      MapHeldInv(S(), {}, k, f, true);
      pt := pt[k := Pte(f, true, true)];
    }

    lemma HeldFrameInv(s: State, f: nat, page: Page)
      requires Inv(s, {} + {f})
      ensures Inv(s.(frames := s.frames[f := page]), {} + {f})
      ensures Seen(s.frames[f := page], s.pt) == Seen(s.frames, s.pt)
    {
      HeldUnmapped(s, {}, f);
      forall g | g in s.refs ensures Counted(s.(frames := s.frames[f := page]), {} + {f}, g) {
        assert Counted(s, {} + {f}, g);
      }
    }

    lemma DropHeldInv(s: State, f: nat, page: Page)
      requires Inv(s, {} + {f})
      ensures f in s.refs && f in s.frames && Inv(Dropped(s, f, page), {})
      ensures Seen(Dropped(s, f, page).frames, s.pt) == Seen(s.frames, s.pt)
    {
      HeldUnmapped(s, {}, f);
      var t := Dropped(s, f, page);
      PushListed(s.freelist, s.frames.Keys, f);
      assert t.frames.Keys == s.frames.Keys;
      hide Listed;
      forall g | g in s.refs ensures Counted(t, {}, g) {
        assert Counted(s, {} + {f}, g);
      }
    }

    /**
     allocuvm from lo to hi pages: zeroed private pages, or, when frames run out or mappages fails at
     page failAt, exactly the pages that were there before.
     */
    method Allocuvm(pid: nat, lo: nat, hi: nat, failAt: nat) returns (ok: bool)
      requires Valid({}) && lo <= hi && forall v: nat :: lo <= v < hi ==> Key(pid, v) !in pt
      modifies this
      ensures Valid({})
      ensures ok <==> hi - lo <= |old(freelist)| && !(lo <= failAt < hi)
      ensures View() == if ok then old(View()) + Zeroed(pid, lo, hi, zeroPage) else old(View())
      ensures EntriesAdded(old(pt), pt, pid, lo, if ok then hi else lo)
      ensures ok ==> forall v: nat :: lo <= v < hi ==>
        && Key(pid, v) in pt && pt[Key(pid, v)].user && pt[Key(pid, v)].writable
        && pt[Key(pid, v)].frame in refs && refs[pt[Key(pid, v)].frame] == 1
        && pt[Key(pid, v)].frame in frames && frames[pt[Key(pid, v)].frame] == Filled(0)
      ensures forall k :: k in old(pt) ==> k in pt && pt[k] == old(pt)[k]
      ensures forall k :: k in pt && k !in old(pt) ==> ok && k.pid == pid && lo <= k.vpn < hi
    {
      hide Inv, Seen, Valid, View, EntriesAdded, Zeroed;
      KeysOfView();
      var a := lo;
      ghost var v0, pt0 := View(), pt;
      NoneAdded(v0, pt0, pid, lo, zeroPage);
      while a < hi
        invariant lo <= a <= hi && !(lo <= failAt < a) && Valid({})
        invariant View() == v0 + Zeroed(pid, lo, a, zeroPage)
        invariant EntriesAdded(pt0, pt, pid, lo, a)
        invariant forall v: nat :: lo <= v < a ==>
          Key(pid, v) in pt && pt[Key(pid, v)].user && pt[Key(pid, v)].writable
        invariant |freelist| == |old(freelist)| - (a - lo)
      {
        var k := Key(pid, a);
        NotYetAdded(pt0, pt, pid, lo, a);
        ghost var before := pt;
        ok := AddPage(k, a == failAt);
        if !ok {
          UndoGrowth(v0, pt0, pt, pid, lo, a, hi, zeroPage);
          Deallocuvm(pid, lo, hi);
          assert pt == pt0;
          return;
        }
        ZeroedStep(v0, pid, lo, a, zeroPage);
        AddedStep(pt0, before, pt, pid, lo, a);
        a := a + 1;
      }
      AddedMeans(pt0, pt, pid, lo, hi);
      forall v: nat | lo <= v < hi
        ensures
          var e := pt[Key(pid, v)];
          e.frame in refs && refs[e.frame] == 1 && e.frame in frames && frames[e.frame] == Filled(0)
      {
        NewPageIs(v0, pid, lo, hi, v);
      }
      ok := true;
    }

    lemma NewPageIs(v0: Views, pid: nat, lo: nat, hi: nat, v: nat)
      requires Valid({}) && View() == v0 + Zeroed(pid, lo, hi, zeroPage) && lo <= v < hi
      requires Key(pid, v) in pt && pt[Key(pid, v)].writable
      ensures
        var e := pt[Key(pid, v)];
        e.frame in refs && refs[e.frame] == 1 && e.frame in frames && frames[e.frame] == Filled(0)
    {
      ViewKeys(S());
      assert Key(pid, v) in Range(pid, lo, hi);
      RefIsMappings(S(), Key(pid, v));
    }

    /** One page of copyuvm: both entries lose write permission and map the same frame. */
    method SharePage(k: Key, c: Key)
      requires Valid({}) && k in pt && c !in pt
      modifies this`pt, this`refs
      ensures Valid({}) && k in old(View()) && View() == old(View())[c := old(View())[k]]
      ensures var e := old(pt)[k].(writable := false); pt == old(pt)[k := e][c := e]
      ensures old(pt)[k].frame in old(refs)
      ensures refs == old(refs)[old(pt)[k].frame := old(refs)[old(pt)[k].frame] + 1]
    {
      hide Inv, Seen;
      ViewKeys(S());
      PteCounted(S(), k);
      ShareInv(S(), {}, k, c);
      pt := pt[k := pt[k].(writable := false)];
      var e := pt[k];
      pt := pt[c := e];
      refs := refs[e.frame := refs[e.frame] + 1];
    }

    /** One page of copyuvm whose mapping fails: the parent keeps its page, write-protected. */
    method ProtectPage(k: Key)
      requires Valid({}) && k in pt
      modifies this`pt
      ensures Valid({}) && View() == old(View()) && pt == old(pt)[k := old(pt)[k].(writable := false)]
    {
      hide Inv, Seen;
      ProtectInv(S(), {}, k);
      pt := pt[k := pt[k].(writable := false)];
    }

    /**
     copyuvm of Assignment3 on the first n pages. `failAt` is the page at which mappages finds no
     memory for a page table page; n or more means that it never does.
     */
    method Copyuvm(parent: nat, child: nat, n: nat, failAt: nat) returns (ok: bool)
      requires Valid({}) && parent != child
      requires forall i: nat :: i < n ==> Key(parent, i) in pt
      requires forall k :: k in pt ==> k.pid != child
      modifies this
      ensures Valid({})
      ensures ok <==> failAt >= n
      ensures View() == if ok then EagerFork(old(View()), parent, child, n) else old(View())
      ensures ok ==> forall i: nat :: i < n ==>
        && Key(child, i) in pt && pt[Key(child, i)] == old(pt)[Key(parent, i)].(writable := false)
        && Key(parent, i) in pt && pt[Key(parent, i)] == old(pt)[Key(parent, i)].(writable := false)
      ensures ok ==> frames == old(frames) && freelist == old(freelist)
      ensures ok ==> forall k :: k in pt && k !in old(pt) ==> k.pid == child && k.vpn < n
      ensures forall k :: k in old(pt) ==>
        && k in pt
        && pt[k] ==
           if k.pid == parent && k.vpn < n && k.vpn <= failAt then old(pt)[k].(writable := false) else old(pt)[k]
      ensures !ok ==> pt.Keys == old(pt).Keys
      ensures ok ==> forall i: nat :: i < n ==>
        Key(child, i) in View() && View()[Key(child, i)] == old(View())[Key(parent, i)]
      ensures forall k :: k in old(View()) ==> k in View() && View()[k] == old(View())[k]
    {
      hide Inv, Seen, EagerFork, Valid, View, EntriesCopied;
      KeysOfView();
      var i := 0;
      ForkNothing(View(), parent, child);
      CopyNone(pt, parent, child);
      while i < n
        invariant i <= n && i <= failAt && Valid({})
        invariant View() == EagerFork(old(View()), parent, child, i) && old(View()).Keys == old(pt).Keys
        invariant EntriesCopied(old(pt), pt, parent, child, i) && frames == old(frames) && freelist == old(freelist)
      {
        var k, c := Key(parent, i), Key(child, i);
        CopiedKeys(old(pt), pt, parent, child, i);
        ghost var before := pt;
        if i == failAt {
          ProtectPage(k);
          DropChild(old(View()), parent, child, i);
          ghost var protected := pt;
          Freevm(child, i);
          CopyUndone(old(pt), before, protected, pt, parent, child, i);
          return false;
        }
        ForkStep(old(View()), parent, child, i);
        SharePage(k, c);
        CopyStep(old(pt), before, pt, parent, child, i);
        i := i + 1;
      }
      CopyMeans(old(pt), pt, parent, child, n);
      ForkMeans(old(View()), parent, child, n);
      ok := true;
    }

    lemma KeysOfView()
      requires Valid({})
      ensures View().Keys == pt.Keys
    {
    }

    lemma ViewKeys(s: State)
      requires Inv(s, {})
      ensures Seen(s.frames, s.pt).Keys == s.pt.Keys
      ensures forall k :: k in s.pt ==> s.pt[k].frame in s.frames && Seen(s.frames, s.pt)[k] == s.frames[s.pt[k].frame]
    {
    }
  }
}
