/**
 The page tables of vm.c of Assignment1 on the page allocator of kalloc.c: every page keeps exactly one
 owner, failures give back exactly what they took, and copyuvm is the eager copy.
 */
module PageTables {
  import opened PrivatePages
  import opened PageSpec
  import opened PageCosts

  const UINT: nat := 0x1_0000_0000

  function PageUp(size: nat): nat {
    (size + PGSIZE - 1) / PGSIZE
  }

  /** PGADDR(PDX(a) + 1, 0, 0) - PGSIZE in 32 bits: the last page of the directory entry of address a. */
  function SkipDirectory(a: nat): nat {
    ((a / 0x40_0000 + 1) * 0x40_0000 % UINT - PGSIZE) % UINT
  }

  predicate Belongs(o: Owner, f: nat, root: nat) {
    match o
    case Directory => f == root
    case TableOf(r, _) => r == root
    case UserOf(r, _) => r == root
    case _ => false
  }

  /** The kernel's rows of first page and number of pages lie above KERNBASE and below 2^32. */
  predicate AboveUser(rows: seq<(nat, nat)>) {
    forall i :: 0 <= i < |rows| ==> USERPAGES <= rows[i].0 && rows[i].0 + rows[i].1 <= NPDENTRIES * NPTENTRIES
  }

  type Owners = map<nat, Owner>

  /** Exactly the frames of user pages lo..hi of a directory have become free. */
  predicate PagesFreed(o: Owners, p: Owners, root: nat, lo: nat, hi: nat) {
    p.Keys == o.Keys &&
    forall f :: f in o ==> p[f] == if o[f].UserOf? && o[f].root == root && lo <= o[f].vpn < hi then FreePage else o[f]
  }

  /** Exactly the frames of a directory have become free. */
  predicate AllFreed(o: Owners, p: Owners, root: nat) {
    p.Keys == o.Keys && forall f :: f in o ==> p[f] == if Belongs(o[f], f, root) then FreePage else o[f]
  }

  /** A directory has only gained frames that were free. */
  predicate Grown(o: Owners, p: Owners, root: nat) {
    p.Keys == o.Keys && forall f :: f in o ==> p[f] == o[f] || (o[f] == FreePage && Belongs(p[f], f, root))
  }

  /** Only the directory `root` has gained tables, and none has lost any. */
  predicate TablesAdded(p: map<Slot, nat>, q: map<Slot, nat>, root: nat) {
    && (forall l :: l in p ==> l in q && q[l] == p[l])
    && (forall l :: l in q && l.root != root ==> l in p)
  }

  lemma NothingGrown(o: Owners, p: map<Slot, nat>, root: nat)
    ensures Grown(o, o, root) && TablesAdded(p, p, root)
  {
  }

  lemma GrownByTable(o: Owners, p: map<Slot, nat>, k: Slot, f: nat)
    requires f in o && o[f] == FreePage && k !in p
    ensures Grown(o, o[f := TableOf(k.root, k.index)], k.root) && TablesAdded(p, p[k := f], k.root)
  {
  }

  lemma NoTablesAdded(p: map<Slot, nat>, root: nat)
    ensures TablesAdded(p, p, root)
  {
  }

  lemma TablesAddedTwice(p: map<Slot, nat>, q: map<Slot, nat>, r: map<Slot, nat>, root: nat)
    requires TablesAdded(p, q, root) && TablesAdded(q, r, root)
    ensures TablesAdded(p, r, root)
  {
  }

  /** Growing a new directory and freeing it again restores every owner. */
  lemma GrownThenFreed(o: Owners, p: Owners, q: Owners, root: nat)
    requires Grown(o, p, root) && AllFreed(p, q, root) && forall f :: f in o ==> !Belongs(o[f], f, root)
    ensures q == o
  {
    assert forall f :: f in o ==> q[f] == o[f];
  }

  lemma GrownTwice(o: Owners, p: Owners, q: Owners, root: nat)
    requires Grown(o, p, root) && Grown(p, q, root)
    ensures Grown(o, q, root)
  {
  }

  /** A held frame that is mapped, or freed, is a free frame taken or left. */
  lemma GrownByPage(o: Owners, p: Owners, f: nat, k: Key)
    requires Grown(o, p, k.pid) && f in o && o[f] == Held
    ensures Grown(o[f := FreePage], p[f := FreePage], k.pid)
    ensures Grown(o[f := FreePage], p[f := UserOf(k.pid, k.vpn)], k.pid)
  {
  }

  function Least(a: nat, b: nat): nat {
    if a <= b then a else b
  }

  lemma FreedStep(o: Owners, p: Owners, q: Owners, root: nat, lo: nat, v: nat)
    requires PagesFreed(o, p, root, lo, v) && PagesFreed(p, q, root, v, v + 1) && lo <= v
    ensures PagesFreed(o, q, root, lo, v + 1)
  {
  }

  /** The skip goes from any page below KERNBASE to the last page of its directory entry, without wrapping. */
  lemma SkipExact(a: nat)
    requires a < KERNBASE && a % PGSIZE == 0
    ensures var s := SkipDirectory(a);
            && s % PGSIZE == 0 && a <= s < UINT && Pdx(s / PGSIZE) == Pdx(a / PGSIZE)
            && Pdx(s / PGSIZE + 1) == Pdx(a / PGSIZE) + 1
    ensures forall v: nat :: a / PGSIZE <= v <= SkipDirectory(a) / PGSIZE ==> Pdx(v) == Pdx(a / PGSIZE)
  {
    var v := a / PGSIZE;
    SkipIs(v);
    hide SkipDirectory;
    LastPage(v);
    forall w: nat | v <= w <= SkipDirectory(a) / PGSIZE ensures Pdx(w) == Pdx(v) {
      SamePdx(v, w);
    }
  }

  lemma SkipIs(v: nat)
    requires v < USERPAGES
    ensures SkipDirectory(v * PGSIZE) == (v / NPTENTRIES * NPTENTRIES + NPTENTRIES - 1) * PGSIZE
  {
    assert v * PGSIZE / 0x40_0000 == v / NPTENTRIES;
  }

  lemma LastPage(v: nat)
    ensures var w := v / NPTENTRIES * NPTENTRIES + NPTENTRIES - 1;
            v <= w && Pdx(w) == Pdx(v) && Pdx(w + 1) == Pdx(v) + 1 && w * PGSIZE / PGSIZE == w
  {
  }

  lemma SamePdx(v: nat, w: nat)
    requires v <= w <= v / NPTENTRIES * NPTENTRIES + NPTENTRIES - 1
    ensures Pdx(w) == Pdx(v)
  {
  }

  /** From s0 to s exactly the pages lo..hi of a directory have been unmapped and their frames freed. */
  ghost predicate Gone(s0: Space, s: Space, root: nat, lo: nat, hi: nat) {
    && s.pte == s0.pte - Range(root, lo, hi) && Seen(s) == Seen(s0) - Range(root, lo, hi)
    && PagesFreed(s0.owner, s.owner, root, lo, hi)
  }

  lemma GoneMeans(s0: Space, s: Space, root: nat, lo: nat, hi: nat)
    requires Gone(s0, s, root, lo, hi)
    ensures forall k :: k in s.pte <==> k in s0.pte && !(k.pid == root && lo <= k.vpn < hi)
    ensures forall k :: k in s.pte ==> k in s0.pte && s.pte[k] == s0.pte[k]
  {
    hide Seen, PagesFreed;
  }

  lemma NothingGone(s: Space, root: nat, lo: nat, hi: nat)
    requires hi <= lo
    ensures Gone(s, s, root, lo, hi)
  {
    NoPages(root, lo, hi);
  }

  /** One more page unmapped. */
  lemma GoneStep(s0: Space, s: Space, t: Space, root: nat, lo: nat, v: nat)
    requires Gone(s0, s, root, lo, v) && lo <= v && t.pte == s.pte - {Key(root, v)}
    requires Seen(t) == Seen(s) - {Key(root, v)}
    requires PagesFreed(s.owner, t.owner, root, v, v + 1)
    ensures Gone(s0, t, root, lo, v + 1)
  {
    FreedStep(s0.owner, s.owner, t.owner, root, lo, v);
    RangeStep(root, lo, v);
    hide PagesFreed, Seen, Range;
    MinusTwice(s0.pte, Range(root, lo, v), Key(root, v));
    MinusTwice(Seen(s0), Range(root, lo, v), Key(root, v));
  }

  /** Pages that are not mapped can be counted as unmapped. */
  lemma SkippedNothing(s0: Space, s: Space, held: set<nat>, root: nat, lo: nat, v: nat, w: nat)
    requires Inv(s, held) && lo <= v <= w && Gone(s0, s, root, lo, v)
    requires forall x: nat :: v <= x < w ==> Key(root, x) !in s.pte
    ensures Gone(s0, s, root, lo, w)
  {
    hide Inv, PagesFreed, Seen, Range;
    SkippedOwners(s, held, s0.owner, root, lo, v, w);
    SeenKeys(s, held);
    forall k | k in Range(root, lo, w) && k !in Range(root, lo, v) ensures k !in s.pte {
      assert Key(root, k.vpn) == k;
    }
    MinusMore(s0.pte, Range(root, lo, v), Range(root, lo, w));
    MinusMore(Seen(s0), Range(root, lo, v), Range(root, lo, w));
  }

  lemma MinusMore<T>(m: map<Key, T>, gone: set<Key>, more: set<Key>)
    requires gone <= more && forall k :: k in more - gone ==> k !in m - gone
    ensures m - more == m - gone
  {
    assert (m - more).Keys == (m - gone).Keys;
  }

  lemma SeenKeys(s: Space, held: set<nat>)
    requires Inv(s, held)
    ensures Seen(s).Keys == s.pte.Keys
  {
    forall k | k in s.pte ensures s.pte[k] in s.data {
      assert PteOk(s, k);
    }
  }

  lemma SkippedOwners(s: Space, held: set<nat>, o: Owners, root: nat, lo: nat, v: nat, w: nat)
    requires Inv(s, held) && lo <= v <= w && PagesFreed(o, s.owner, root, lo, v)
    requires forall x: nat :: v <= x < w ==> Key(root, x) !in s.pte
    ensures PagesFreed(o, s.owner, root, lo, w)
  {
    forall f | f in s.owner && s.owner[f].UserOf? && s.owner[f].root == root ensures !(v <= s.owner[f].vpn < w) {
      assert FrameOk(s, held, f);
    }
    hide Inv;
  }

  /** Nothing is mapped behind an absent directory entry. */
  lemma NothingBehind(s: Space, held: set<nat>, root: nat, index: nat, vpn: nat)
    requires Inv(s, held) && Slot(root, index) !in s.pde && Pdx(vpn) == index
    ensures Key(root, vpn) !in s.pte
  {
  }

  /** Skipping a directory entry that is absent skips no page that is mapped. */
  lemma SkippedDirectory(s0: Space, s: Space, held: set<nat>, root: nat, lo: nat, a: nat, hi: nat)
    requires Inv(s, held) && a < KERNBASE && a % PGSIZE == 0 && lo <= a / PGSIZE < hi
    requires Gone(s0, s, root, lo, a / PGSIZE) && Slot(root, Pdx(a / PGSIZE)) !in s.pde
    ensures Gone(s0, s, root, lo, Least(SkipDirectory(a) / PGSIZE + 1, hi))
  {
    SkipExact(a);
    var w := Least(SkipDirectory(a) / PGSIZE + 1, hi);
    forall x: nat | a / PGSIZE <= x < w ensures Key(root, x) !in s.pte {
      NothingBehind(s, held, root, Pdx(x), x);
    }
    hide Inv, Gone, SkipDirectory;
    SkippedNothing(s0, s, held, root, lo, a / PGSIZE, w);
  }

  /** All user pages of a directory and its tables below index i have become free. */
  predicate FreedUpTo(o: Owners, p: Owners, root: nat, i: nat) {
    p.Keys == o.Keys &&
    forall f :: f in o ==>
      p[f] ==
      if (o[f].UserOf? && o[f].root == root) || (o[f].TableOf? && o[f].root == root && o[f].index < i) then FreePage
      else o[f]
  }

  /** All directory entries are left except those of `root` below index i. */
  ghost predicate TablesLeft(p: map<Slot, nat>, q: map<Slot, nat>, root: nat, i: nat) {
    && (forall l :: l in q <==> l in p && !(l.root == root && l.index < i))
    && (forall l :: l in q ==> q[l] == p[l])
  }

  /** What is left of s0 when a directory's user pages and its tables below index i are gone. */
  ghost predicate TornDown(s0: Space, s: Space, root: nat, i: nat) {
    && s.pte == s0.pte - Range(root, 0, USERPAGES) && Seen(s) == Seen(s0) - Range(root, 0, USERPAGES)
    && s.dirs == s0.dirs
    && TablesLeft(s0.pde, s.pde, root, i)
    && FreedUpTo(s0.owner, s.owner, root, i)
  }

  /** s is s0 without the directory and with all its frames free. */
  ghost predicate DirectoryGone(s0: Space, s: Space, root: nat) {
    && s.pte == s0.pte - Range(root, 0, USERPAGES) && Seen(s) == Seen(s0) - Range(root, 0, USERPAGES)
    && s.dirs == s0.dirs - {root}
    && TablesLeft(s0.pde, s.pde, root, NPDENTRIES)
    && AllFreed(s0.owner, s.owner, root)
  }

  lemma TearDownBegins(s0: Space, s: Space, held: set<nat>, root: nat)
    requires Inv(s0, held) && Gone(s0, s, root, PageUp(0), PageUp(KERNBASE)) && s.dirs == s0.dirs && s.pde == s0.pde
    ensures TornDown(s0, s, root, 0) && forall l :: l in s.pte ==> l.pid != root
  {
    hide Seen, Inv, Range, PagesFreed;
    assert PageUp(0) == 0 && PageUp(KERNBASE) == USERPAGES;
    UserOwners(s0, held);
    AllPagesFreed(s0.owner, s.owner, root);
    forall l | l in s.pte ensures l.pid != root {
      assert l in s0.pte && l !in Range(root, 0, USERPAGES);
    }
  }

  lemma DirectoryGoneMeans(s0: Space, s: Space, held: set<nat>, root: nat)
    requires Inv(s0, held) && DirectoryGone(s0, s, root)
    ensures s.dirs == s0.dirs - {root} && forall l :: l in s.pde <==> l in s0.pde && l.root != root
    ensures forall k :: k in s.pte <==> k in s0.pte && k.pid != root
    ensures forall k :: k in s.pte ==> k in s0.pte && s.pte[k] == s0.pte[k]
  {
    UserOwners(s0, held);
    forall l | l in s0.pde ensures l.index < NPDENTRIES {
      assert PdeOk(s0, l);
    }
    hide Inv, Seen, AllFreed;
  }

  lemma AllPagesFreed(o: Owners, p: Owners, root: nat)
    requires PagesFreed(o, p, root, 0, USERPAGES) && forall f :: f in o && o[f].UserOf? ==> o[f].vpn < USERPAGES
    ensures FreedUpTo(o, p, root, 0)
  {
  }

  lemma UserOwners(s: Space, held: set<nat>)
    requires Inv(s, held)
    ensures forall f :: f in s.owner && s.owner[f].UserOf? ==> s.owner[f].vpn < USERPAGES
    ensures forall l :: l in s.pte ==> l.vpn < USERPAGES
  {
    hide Seen, FreeOk;
    forall f | f in s.owner && s.owner[f].UserOf? ensures s.owner[f].vpn < USERPAGES {
      assert FrameOk(s, held, f);
      assert PteOk(s, Key(s.owner[f].root, s.owner[f].vpn));
    }
    forall l | l in s.pte ensures l.vpn < USERPAGES {
      assert PteOk(s, l);
    }
  }

  lemma TearDownStep(s0: Space, s: Space, t: Space, held: set<nat>, root: nat, i: nat)
    requires Inv(s, held) && TornDown(s0, s, root, i) && Seen(t) == Seen(s) && t.pte == s.pte && t.dirs == s.dirs
    requires if Slot(root, i) in s.pde
             then t.pde == s.pde - {Slot(root, i)} &&
               t.owner == s.owner[s.pde[Slot(root, i)] := Held][s.pde[Slot(root, i)] := FreePage]
             else t.pde == s.pde && t.owner == s.owner
    ensures TornDown(s0, t, root, i + 1)
  {
    hide Seen, Inv, Range, FreedUpTo;
    TableOwner(s, held, root, i);
    FreedUpToStep(s0.owner, s.owner, t.owner, s.pde, root, i);
  }

  lemma FreedUpToStep(o: Owners, p: Owners, q: Owners, pde: map<Slot, nat>, root: nat, i: nat)
    requires FreedUpTo(o, p, root, i)
    requires forall f :: f in p ==> (p[f] == TableOf(root, i) <==> Slot(root, i) in pde && pde[Slot(root, i)] == f)
    requires Slot(root, i) in pde ==> pde[Slot(root, i)] in p
    requires q == if Slot(root, i) in pde then p[pde[Slot(root, i)] := Held][pde[Slot(root, i)] := FreePage] else p
    ensures FreedUpTo(o, q, root, i + 1)
  {
  }

  /** A table's owner is recorded under no other frame. */
  lemma TableOwner(s: Space, held: set<nat>, root: nat, i: nat)
    requires Inv(s, held)
    ensures Slot(root, i) in s.pde ==> s.pde[Slot(root, i)] in s.owner
    ensures forall f :: f in s.owner ==>
      (s.owner[f] == TableOf(root, i) <==> Slot(root, i) in s.pde && s.pde[Slot(root, i)] == f)
  {
    if Slot(root, i) in s.pde {
      assert PdeOk(s, Slot(root, i));
    }
    forall f | f in s.owner && s.owner[f] == TableOf(root, i)
      ensures Slot(root, i) in s.pde && s.pde[Slot(root, i)] == f
    {
      assert FrameOk(s, held, f);
    }
  }

  lemma TearDownEnds(s0: Space, s: Space, t: Space, held: set<nat>, root: nat)
    requires Inv(s0, held) && TornDown(s0, s, root, NPDENTRIES) && root in s0.dirs
    requires Seen(t) == Seen(s) && t.pte == s.pte && t.dirs == s.dirs - {root} && t.pde == s.pde
    requires t.owner == s.owner[root := Held][root := FreePage]
    ensures DirectoryGone(s0, t, root)
  {
    hide Seen, FreeOk, Range;
    assert root in s0.owner && s0.owner[root] == Directory;
    DirectoryOwners(s0, held, root);
    hide Inv;
    AllFreedEnds(s0.owner, s.owner, root);
  }

  lemma DirectoryOwners(s: Space, held: set<nat>, root: nat)
    requires Inv(s, held)
    ensures forall f :: f in s.owner && s.owner[f].TableOf? ==> s.owner[f].index < NPDENTRIES
  {
    hide Seen, FreeOk;
    forall f | f in s.owner && s.owner[f].TableOf? ensures s.owner[f].index < NPDENTRIES {
      assert FrameOk(s, held, f);
      assert PdeOk(s, Slot(s.owner[f].root, s.owner[f].index));
    }
  }

  lemma AllFreedEnds(o: Owners, p: Owners, root: nat)
    requires FreedUpTo(o, p, root, NPDENTRIES) && root in o && o[root] == Directory
    requires forall f :: f in o && o[f].TableOf? ==> o[f].index < NPDENTRIES
    ensures AllFreed(o, p[root := Held][root := FreePage], root)
  {
  }

  /** A mapped frame that is freed is the only one that changes hands. */
  lemma FreedOne(o: Owners, f: nat, k: Key)
    requires f in o && forall g :: g in o ==> (o[g] == UserOf(k.pid, k.vpn) <==> g == f)
    ensures PagesFreed(o, o[f := Held][f := FreePage], k.pid, k.vpn, k.vpn + 1)
  {
  }

  /** From s0 to s a directory has gained zeroed pages lo..hi, and nothing else that a process can see has changed. */
  ghost predicate Extended(s0: Space, s: Space, root: nat, lo: nat, hi: nat, zero: Page) {
    && s.pte.Keys == s0.pte.Keys + Range(root, lo, hi) && (forall k :: k in s0.pte ==> s.pte[k] == s0.pte[k])
    && Seen(s) == Seen(s0) + Zeroed(root, lo, hi, zero)
    && s.dirs == s0.dirs && TablesAdded(s0.pde, s.pde, root) && Grown(s0.owner, s.owner, root)
  }

  lemma ExtendedNothing(s: Space, root: nat, lo: nat, zero: Page)
    ensures Extended(s, s, root, lo, lo, zero)
  {
    NoPages(root, lo, lo);
  }

  lemma ExtendedStep(s0: Space, s: Space, t: Space, root: nat, lo: nat, v: nat, zero: Page)
    requires Extended(s0, s, root, lo, v, zero) && lo <= v && Key(root, v) !in s0.pte
    requires Key(root, v) in t.pte && t.pte == s.pte[Key(root, v) := t.pte[Key(root, v)]]
    requires Seen(t) == Seen(s)[Key(root, v) := zero]
    requires t.dirs == s.dirs && TablesAdded(s.pde, t.pde, root) && Grown(s.owner, t.owner, root)
    ensures Extended(s0, t, root, lo, v + 1, zero)
  {
    hide Grown, TablesAdded, Seen, Range, Zeroed;
    ZeroedStep(Seen(s0), root, lo, v, zero);
    RangeStep(root, lo, v);
    GrownTwice(s0.owner, s.owner, t.owner, root);
    TablesAddedTwice(s0.pde, s.pde, t.pde, root);
    assert t.pte.Keys == s.pte.Keys + {Key(root, v)};
  }

  /** allocuvm's failure: the pages it added are gone again. */
  lemma ExtensionUndone(s0: Space, s: Space, t: Space, root: nat, lo: nat, v: nat, hi: nat, zero: Page)
    requires Inv(s0, {}) && Extended(s0, s, root, lo, v, zero) && lo <= v <= hi && Gone(s, t, root, lo, hi)
    requires forall x: nat :: lo <= x < hi ==> Key(root, x) !in s0.pte
    requires t.dirs == s.dirs && t.pde == s.pde
    ensures Extended(s0, t, root, lo, lo, zero)
  {
    hide Inv, Seen, Grown, PagesFreed, TablesAdded, Range, Zeroed;
    NoPages(root, lo, lo);
    NothingZeroed(root, lo, zero);
    UnmappedOwners(s0, root, lo, hi);
    SeenKeys(s0, {});
    UndoneOwners(s0.owner, s.owner, t.owner, root, lo, hi);
    UndonePages(s0.pte, s.pte, root, lo, v, hi);
    UndoneZeros(Seen(s0), root, lo, v, hi, zero);
  }

  lemma UndonePages<T>(m0: map<Key, T>, m: map<Key, T>, root: nat, lo: nat, v: nat, hi: nat)
    requires lo <= v <= hi && m.Keys == m0.Keys + Range(root, lo, v) && forall k :: k in m0 ==> m[k] == m0[k]
    requires forall x: nat :: lo <= x < hi ==> Key(root, x) !in m0
    ensures m - Range(root, lo, hi) == m0
  {
    forall k | k in m0 ensures k !in Range(root, lo, hi) {
      assert k == Key(k.pid, k.vpn);
    }
    assert (m - Range(root, lo, hi)).Keys == m0.Keys;
  }

  lemma UndoneZeros(m: Views, root: nat, lo: nat, v: nat, hi: nat, zero: Page)
    requires lo <= v <= hi && forall x: nat :: lo <= x < hi ==> Key(root, x) !in m
    ensures m + Zeroed(root, lo, v, zero) - Range(root, lo, hi) == m
  {
    UndonePages(m, m + Zeroed(root, lo, v, zero), root, lo, v, hi);
  }

  lemma NothingZeroed(root: nat, lo: nat, zero: Page)
    ensures Zeroed(root, lo, lo, zero) == map[]
  {
  }

  lemma UnmappedOwners(s: Space, root: nat, lo: nat, hi: nat)
    requires Inv(s, {}) && forall x: nat :: lo <= x < hi ==> Key(root, x) !in s.pte
    ensures forall f :: f in s.owner && s.owner[f].UserOf? && s.owner[f].root == root ==> !(lo <= s.owner[f].vpn < hi)
  {
    forall f | f in s.owner && s.owner[f].UserOf? && s.owner[f].root == root ensures !(lo <= s.owner[f].vpn < hi) {
      assert FrameOk(s, {}, f);
    }
  }

  lemma UndoneOwners(o: Owners, p: Owners, q: Owners, root: nat, lo: nat, hi: nat)
    requires Grown(o, p, root) && PagesFreed(p, q, root, lo, hi)
    requires forall f :: f in o && o[f].UserOf? && o[f].root == root ==> !(lo <= o[f].vpn < hi)
    ensures Grown(o, q, root)
  {
  }

  lemma FreedBesideHeld(o: Owners, p: Owners, f: nat, root: nat, lo: nat, hi: nat)
    requires PagesFreed(o, p, root, lo, hi) && f in o
    ensures PagesFreed(o[f := FreePage], p[f := FreePage], root, lo, hi)
  {
  }

  lemma SeenIgnoresOwner(s: Space, t: Space)
    requires s.pte == t.pte && s.data == t.data
    ensures Seen(s) == Seen(t)
  {
  }

  /** New tables alone change nothing that a process can see. */
  lemma ExtendedTables(s0: Space, s: Space, t: Space, root: nat, lo: nat, v: nat, zero: Page)
    requires Extended(s0, s, root, lo, v, zero) && t.pte == s.pte && Seen(t) == Seen(s) && t.dirs == s.dirs
    requires TablesAdded(s.pde, t.pde, root) && Grown(s.owner, t.owner, root)
    ensures Extended(s0, t, root, lo, v, zero)
  {
    hide Seen, Grown, TablesAdded;
    GrownTwice(s0.owner, s.owner, t.owner, root);
    TablesAddedTwice(s0.pde, s.pde, t.pde, root);
  }

  /** The same change, with frame f counted as free on both sides. */
  lemma GoneBesideHeld(s: Space, t: Space, f: nat, root: nat, lo: nat, hi: nat)
    requires Gone(s, t, root, lo, hi) && f in s.owner
    ensures Gone(s.(owner := s.owner[f := FreePage]), t.(owner := t.owner[f := FreePage]), root, lo, hi)
  {
    FreedBesideHeld(s.owner, t.owner, f, root, lo, hi);
    SeenIgnoresOwner(s, s.(owner := s.owner[f := FreePage]));
    SeenIgnoresOwner(t, t.(owner := t.owner[f := FreePage]));
    hide Seen, PagesFreed;
  }

  lemma GoneSeen(s: Space, t: Space, u: Space, root: nat, lo: nat, hi: nat)
    requires Gone(s, t, root, lo, hi) && u.pte == t.pte && Seen(u) == Seen(t) && u.owner == t.owner
    ensures Gone(s, u, root, lo, hi)
  {
  }

  lemma NotYet(s0: Space, s: Space, root: nat, lo: nat, v: nat, zero: Page)
    requires Extended(s0, s, root, lo, v, zero) && Key(root, v) !in s0.pte
    ensures Key(root, v) !in s.pte
  {
  }

  lemma PageUpExact(a: nat, size: nat)
    requires a % PGSIZE == 0
    ensures a < size <==> a / PGSIZE < PageUp(size)
    ensures a < KERNBASE ==> a / PGSIZE < USERPAGES
  {
  }

  /** From s0 to s there is a new directory with user pages 0..n, and nothing that was there has changed. */
  ghost predicate NewDirectory(s0: Space, s: Space, root: nat, n: nat) {
    && root !in s0.dirs && s.dirs == s0.dirs + {root}
    && s.pte.Keys == s0.pte.Keys + ChildKeys(root, n) && (forall k :: k in s0.pte ==> s.pte[k] == s0.pte[k])
    && TablesAdded(s0.pde, s.pde, root) && Grown(s0.owner, s.owner, root)
  }

  /** Every owner and every entry is as it was. */
  ghost predicate Restored(s0: Space, s: Space) {
    s.dirs == s0.dirs && s.pde == s0.pde && s.pte == s0.pte && s.owner == s0.owner && Seen(s) == Seen(s0)
  }

  /** New tables, perhaps with one more page, keep the new directory apart. */
  lemma NewDirectoryStep(s0: Space, s: Space, t: Space, root: nat, v: nat, mapped: bool)
    requires NewDirectory(s0, s, root, v) && Key(root, v) !in s0.pte && t.dirs == s.dirs
    requires if mapped then Key(root, v) in t.pte && t.pte == s.pte[Key(root, v) := t.pte[Key(root, v)]]
             else t.pte == s.pte
    requires TablesAdded(s.pde, t.pde, root) && Grown(s.owner, t.owner, root)
    ensures NewDirectory(s0, t, root, if mapped then v + 1 else v)
  {
    hide Grown, TablesAdded;
    GrownTwice(s0.owner, s.owner, t.owner, root);
    TablesAddedTwice(s0.pde, s.pde, t.pde, root);
    if mapped {
      assert t.pte.Keys == s.pte.Keys + {Key(root, v)};
    }
  }

  /** Nothing belongs to a frame that is no directory. */
  lemma Stranger(s: Space, root: nat)
    requires Inv(s, {}) && root !in s.dirs
    ensures forall f :: f in s.owner ==> !Belongs(s.owner[f], f, root)
    ensures (forall l :: l in s.pde ==> l.root != root) && (forall k :: k in s.pte ==> k.pid != root)
  {
    forall l | l in s.pde ensures l.root != root {
      assert PdeOk(s, l);
    }
    forall k | k in s.pte ensures k.pid != root {
      assert PteOk(s, k);
    }
    forall f | f in s.owner ensures !Belongs(s.owner[f], f, root) {
      assert FrameOk(s, {}, f);
    }
  }

  /** A new directory that is freed again leaves no trace. */
  lemma NewDirectoryGone(s0: Space, s: Space, t: Space, root: nat, n: nat)
    requires Inv(s0, {}) && Inv(s, {}) && NewDirectory(s0, s, root, n) && DirectoryGone(s, t, root) && n <= USERPAGES
    requires Seen(s) - ChildKeys(root, n) == Seen(s0)
    ensures Restored(s0, t)
  {
    Stranger(s0, root);
    SeenKeys(s0, {});
    SeenKeys(s, {});
    DirectoryIndexes(s);
    hide Inv, Seen;
    GrownThenFreed(s0.owner, s.owner, t.owner, root);
    TablesRestored(s0.pde, s.pde, t.pde, root);
    PagesRestored(s0.pte, s.pte, root, n);
    PagesRestored(Seen(s0), Seen(s), root, n);
    hide Grown, AllFreed, TablesAdded, TablesLeft;
  }

  lemma DirectoryIndexes(s: Space)
    requires Inv(s, {})
    ensures forall l :: l in s.pde ==> l.index < NPDENTRIES
  {
    forall l | l in s.pde ensures l.index < NPDENTRIES {
      assert PdeOk(s, l);
    }
  }

  lemma TablesRestored(p: map<Slot, nat>, q: map<Slot, nat>, r: map<Slot, nat>, root: nat)
    requires TablesAdded(p, q, root) && TablesLeft(q, r, root, NPDENTRIES)
    requires (forall l :: l in p ==> l.root != root) && (forall l :: l in q ==> l.index < NPDENTRIES)
    ensures r == p
  {
    assert r.Keys == p.Keys;
  }

  lemma PagesRestored<T>(m0: map<Key, T>, m: map<Key, T>, root: nat, n: nat)
    requires n <= USERPAGES && m.Keys == m0.Keys + ChildKeys(root, n) && forall k :: k in m0 ==> m[k] == m0[k]
    requires forall k :: k in m0 ==> k.pid != root
    ensures m - Range(root, 0, USERPAGES) == m0
  {
    hide Range, ChildKeys;
    assert (m - Range(root, 0, USERPAGES)).Keys == m0.Keys;
  }

  /** The child's pages taken away again, the eager fork has changed nothing. */
  lemma ForkMinusChild(v: Views, parent: nat, child: nat, n: nat)
    requires forall k :: k in v ==> k.pid != child
    ensures EagerFork(v, parent, child, n) - ChildKeys(child, n) == v
  {
  }

  // ---------- What is taken from the free list ----------

  /** If the next page of a range cannot be had, the range cannot. */
  lemma NextPage(p0: map<Slot, nat>, free0: nat, p: map<Slot, nat>, free: nat, root: nat, n: nat, base: set<nat>,
                 lo: nat, v: nat, hi: nat)
    requires Spent(p0, free0, p, free, root, n, base + Tables(lo, v)) && lo <= v < hi
    ensures Price(p, root, Pdx(v), 1) > free ==> free0 < n + (hi - v) + |Missing(p0, root, base + Tables(lo, hi))|
  {
    hide Spent, Missing, Tables, Pdx;
    assert p[Slot(root, Pdx(v)) := 0].Keys == p.Keys + {Slot(root, Pdx(v))};
    SpentStep(p0, free0, p, free, p[Slot(root, Pdx(v)) := 0], root, n, base + Tables(lo, v), Pdx(v), 1);
    MoreTables(base, lo, v);
    LackingForAll(p0, root, base, lo, v + 1, hi);
  }

  lemma NextTable(p0: map<Slot, nat>, free0: nat, p: map<Slot, nat>, free: nat, root: nat, n: nat, base: set<nat>,
                  lo: nat, v: nat, hi: nat)
    requires Spent(p0, free0, p, free, root, n, base + Tables(lo, v)) && lo <= v < hi
    ensures Price(p, root, Pdx(v), 0) > free ==> free0 < n + |Missing(p0, root, base + Tables(lo, hi))|
  {
    hide Spent, Missing, Tables, Pdx;
    assert p[Slot(root, Pdx(v)) := 0].Keys == p.Keys + {Slot(root, Pdx(v))};
    SpentStep(p0, free0, p, free, p[Slot(root, Pdx(v)) := 0], root, n, base + Tables(lo, v), Pdx(v), 0);
    MoreTables(base, lo, v);
    LackingForAll(p0, root, base, lo, v + 1, hi);
  }

  lemma MoreTables(base: set<nat>, lo: nat, v: nat)
    requires lo <= v
    ensures base + Tables(lo, v) + {Pdx(v)} == base + Tables(lo, v + 1)
  {
  }

  lemma InDirectory(v: nat)
    requires v < NPDENTRIES * NPTENTRIES
    ensures Pdx(v) < NPDENTRIES
  {
  }

  lemma NoTables(base: set<nat>, lo: nat)
    ensures base + Tables(lo, lo) == base
  {
  }

  lemma NoBase(tables: set<nat>)
    ensures {} + tables == tables
  {
  }

  lemma SpentStart(p: map<Slot, nat>, free: nat, root: nat, lo: nat)
    ensures Spent(p, free, p, free, root, 0, {} + Tables(lo, lo))
  {
    SpentNothing(p, free, root);
    assert {} + Tables(lo, lo) == {};
  }

  lemma SpentEnough(p0: map<Slot, nat>, free0: nat, p: map<Slot, nat>, free: nat, root: nat, n: nat, tables: set<nat>)
    requires Spent(p0, free0, p, free, root, n, tables)
    ensures free0 == free + n + |Missing(p0, root, tables)|
  {
  }

  /** The directory page itself. */
  lemma RootSpent(p: map<Slot, nat>, free: nat, root: nat)
    requires free >= 1
    ensures Spent(p, free, p, free - 1, root, 1, {})
  {
    SpentNothing(p, free, root);
  }

  lemma SpentNew(p0: map<Slot, nat>, free0: nat, p: map<Slot, nat>, free: nat, root: nat, n: nat, tables: set<nat>)
    requires Spent(p0, free0, p, free, root, n, tables) && forall l :: l in p0 ==> l.root != root
    ensures free0 == free + n + |tables|
  {
    AllMissing(p0, root, tables);
  }

  /** PTE_W and PTE_U. */
  datatype Flags = Flags(writable: bool, user: bool)

  /** No page has got other flags; pages may be gone. */
  predicate FlagsLeft(f: map<Key, Flags>, g: map<Key, Flags>) {
    forall k :: k in g ==> k in f && g[k] == f[k]
  }

  /** All pages of f have the flags that they have there; there may be more pages. */
  predicate FlagsKept(f: map<Key, Flags>, g: map<Key, Flags>) {
    forall k :: k in f ==> k in g && g[k] == f[k]
  }

  lemma FlagsBack(f: map<Key, Flags>, g: map<Key, Flags>, h: map<Key, Flags>)
    requires FlagsKept(f, g) && FlagsLeft(g, h) && h.Keys == f.Keys
    ensures h == f
  {
  }

  /** These pages are mapped writable for the user. */
  predicate ForUser(g: map<Key, Flags>, root: nat, lo: nat, hi: nat) {
    forall v: nat :: lo <= v < hi ==> Key(root, v) in g && g[Key(root, v)] == Flags(true, true)
  }

  lemma OneMoreForUser(g: map<Key, Flags>, root: nat, lo: nat, v: nat)
    requires ForUser(g, root, lo, v)
    ensures ForUser(g[Key(root, v) := Flags(true, true)], root, lo, v + 1)
  {
  }

  lemma KeptAndNone(f: map<Key, Flags>, root: nat, lo: nat)
    ensures FlagsKept(f, f) && ForUser(f, root, lo, lo)
  {
  }

  lemma PageNumber(p: nat)
    ensures p * PGSIZE / PGSIZE == p && p * PGSIZE % PGSIZE == 0
  {
  }

  lemma PagesInOrder(a: nat, b: nat)
    requires a <= b
    ensures PageUp(a) <= PageUp(b)
  {
  }

  lemma KeptAt(f: map<Key, Flags>, g: map<Key, Flags>, k: Key)
    requires FlagsKept(f, g) && k in f
    ensures k in g && g[k] == f[k]
  {
  }

  lemma FlagsMore(f: map<Key, Flags>, g: map<Key, Flags>, k: Key, perm: Flags)
    requires FlagsKept(f, g) && k !in f
    ensures FlagsKept(f, g[k := perm])
  {
  }

  /** What each page holds after allocuvm. */
  lemma ExtendedMeans(s0: Space, s: Space, root: nat, lo: nat, hi: nat, zero: Page)
    requires Inv(s0, {}) && Inv(s, {}) && Extended(s0, s, root, lo, hi, zero)
    requires forall v: nat :: lo <= v < hi ==> Key(root, v) !in s0.pte
    ensures forall v: nat :: lo <= v < hi ==>
      && Key(root, v) in s.pte && s.pte[Key(root, v)] in s.data && s.data[s.pte[Key(root, v)]] == zero
    ensures forall k :: k in s0.pte ==>
      && k in s.pte && s.pte[k] == s0.pte[k]
      && s.pte[k] in s.data && s.pte[k] in s0.data && s.data[s.pte[k]] == s0.data[s.pte[k]]
    ensures forall k :: k in s.pte ==> k in s0.pte || (k.pid == root && lo <= k.vpn < hi)
    ensures hi <= lo ==> s.pte == s0.pte
  {
    hide Inv, Seen, Extended;
    SeenMeans(s0);
    SeenMeans(s);
    ExtendedParts(s0, s, root, lo, hi, zero);
    forall v: nat | lo <= v < hi
      ensures Key(root, v) in s.pte && s.pte[Key(root, v)] in s.data && s.data[s.pte[Key(root, v)]] == zero
    {
      assert Seen(s)[Key(root, v)] == zero;
    }
    forall k | k in s0.pte ensures s.data[s.pte[k]] == s0.data[s.pte[k]] {
      assert Key(k.pid, k.vpn) == k;
      assert Seen(s)[k] == Seen(s0)[k];
    }
  }

  lemma ExtendedParts(s0: Space, s: Space, root: nat, lo: nat, hi: nat, zero: Page)
    requires Extended(s0, s, root, lo, hi, zero)
    ensures forall v: nat :: lo <= v < hi ==>
      Key(root, v) in s.pte && Key(root, v) in Seen(s) && Seen(s)[Key(root, v)] == zero
    ensures forall k :: k in s.pte ==> k in s0.pte || (k.pid == root && lo <= k.vpn < hi)
    ensures forall k :: k in s0.pte ==> k in s.pte && s.pte[k] == s0.pte[k]
    ensures forall k :: k in Seen(s0) && !(k.pid == root && lo <= k.vpn < hi) ==>
      k in Seen(s) && Seen(s)[k] == Seen(s0)[k]
    ensures hi <= lo ==> s.pte == s0.pte
  {
    hide Seen, Grown, TablesAdded;
    forall v: nat | lo <= v < hi ensures Key(root, v) in Range(root, lo, hi) {
    }
    if hi <= lo {
      NoPages(root, lo, hi);
    }
  }

  lemma SeenMeans(s: Space)
    requires Inv(s, {})
    ensures Seen(s).Keys == s.pte.Keys
    ensures forall k :: k in s.pte ==> s.pte[k] in s.data && Seen(s)[k] == s.data[s.pte[k]]
  {
    SeenKeys(s, {});
  }

  /** What each page holds after copyuvm. */
  lemma CopyMeans(s0: Space, s: Space, parent: nat, child: nat, n: nat)
    requires Inv(s0, {}) && Inv(s, {}) && NewDirectory(s0, s, child, n) && parent in s0.dirs
    requires Seen(s) == EagerFork(Seen(s0), parent, child, n) && forall v: nat :: v < n ==> Key(parent, v) in s0.pte
    ensures child !in s0.dirs && child in s.dirs
    ensures forall v: nat :: v < n ==>
      && Key(child, v) in s.pte && Key(child, v) !in s0.pte && s.pte[Key(child, v)] in s.data
      && s0.pte[Key(parent, v)] in s0.data && s.data[s.pte[Key(child, v)]] == s0.data[s0.pte[Key(parent, v)]]
    ensures forall k :: k in s0.pte ==>
      && k in s.pte && s.pte[k] == s0.pte[k]
      && s.pte[k] in s.data && s.pte[k] in s0.data && s.data[s.pte[k]] == s0.data[s.pte[k]]
    ensures forall k :: k in s.pte ==> k in s0.pte || (k.pid == child && k.vpn < n)
  {
    SeenMeans(s0);
    SeenMeans(s);
    Stranger(s0, child);
    ForkMeans(Seen(s0), parent, child, n);
    hide Inv, Seen, Grown, TablesAdded, EagerFork;
    forall v: nat | v < n
      ensures
        && Key(child, v) in s.pte && Key(child, v) !in s0.pte
        && s.data[s.pte[Key(child, v)]] == s0.data[s0.pte[Key(parent, v)]]
    {
      assert Key(child, v) in ChildKeys(child, n);
      assert Seen(s)[Key(child, v)] == Seen(s0)[Key(parent, v)];
    }
    forall k | k in s0.pte ensures s.data[s.pte[k]] == s0.data[s.pte[k]] {
      assert Seen(s)[k] == Seen(s0)[k];
    }
  }

  datatype Growth = Mapped | NoMemory | NoTable(frame: nat)

  class Memory {
    var freelist: seq<nat>
    var dirs: set<nat>
    var pde: map<Slot, nat>
    var pte: map<Key, nat>
    var flags: map<Key, Flags>  // of the same entries
    var data: map<nat, Page>
    ghost var owner: Owners
    const zeroPage: Page := Filled(0)
    const junkPage: Page := Filled(1)
    /** kmap */
    const kmap: seq<(nat, nat)>

    ghost function S(): Space
      reads this
    {
      Space(freelist, dirs, pde, pte, data, owner)
    }

    ghost predicate Valid(held: set<nat>)
      reads this
    {
      Inv(S(), held) && AboveUser(kmap) && flags.Keys == pte.Keys
    }

    ghost function View(): Views
      reads this
    {
      Seen(S())
    }

    /** The allocator with all pages free, as kinit leaves it, before there is any directory. */
    constructor (pages: seq<nat>, content: map<nat, Page>, kernel: seq<(nat, nat)>)
      requires forall i, j :: 0 <= i < j < |pages| ==> pages[i] != pages[j]
      requires content.Keys == set f | f in pages
      requires AboveUser(kernel)
      ensures Valid({}) && freelist == pages && dirs == {}
    {
      freelist, dirs, pde, pte, flags, data := pages, {}, map[], map[], map[], content;
      owner := map f | f in content :: FreePage;
      kmap := kernel;
    }

    method Kalloc(ghost held: set<nat>) returns (ok: bool, f: nat)
      requires Valid(held)
      modifies this`freelist, this`owner
      ensures ok <==> old(freelist) != []
      ensures ok ==> Valid(held + {f}) && f !in held && f in old(owner) && old(owner)[f] == FreePage
      ensures ok ==> owner == old(owner)[f := Held] && f == old(freelist)[0] && freelist == old(freelist)[1..]
      ensures !ok ==> Valid(held) && owner == old(owner) && freelist == old(freelist)
      ensures View() == old(View())
    {
      ok, f := freelist != [], 0;
      if ok {
        PoppedInv(S(), held);
        hide Inv, Seen;
        f := freelist[0];
        freelist := freelist[1..];
        owner := owner[f := Held];
      }
    }

    method Kfree(f: nat, ghost held: set<nat>)
      requires Valid(held) && f in held
      modifies this`freelist, this`owner, this`data
      ensures Valid(held - {f}) && View() == old(View())
      ensures owner == old(owner)[f := FreePage] && freelist == [f] + old(freelist)
      ensures data == old(data)[f := Filled(1)]
    {
      PushedInv(S(), held, f, junkPage);
      hide Inv, Seen;
      data := data[f := junkPage];
      freelist := [f] + freelist;
      owner := owner[f := FreePage];
    }

    /** walkpgdir: whether there is a table for the page, after making one if asked to. */
    method Walk(root: nat, vpn: nat, alloc: bool, ghost held: set<nat>) returns (ok: bool)
      requires Valid(held) && root in dirs && Pdx(vpn) < NPDENTRIES
      modifies this`freelist, this`owner, this`data, this`pde
      ensures Valid(held) && View() == old(View()) && Grown(old(owner), owner, root)
      ensures ok <==> Slot(root, Pdx(vpn)) in old(pde) || (alloc && old(freelist) != [])
      ensures alloc ==> (ok <==> Price(old(pde), root, Pdx(vpn), 0) <= |old(freelist)|)
      ensures ok <==> Slot(root, Pdx(vpn)) in pde
      ensures if ok then pde.Keys == old(pde).Keys + {Slot(root, Pdx(vpn))} else pde == old(pde)
      ensures |freelist| == |old(freelist)| - if ok then Price(old(pde), root, Pdx(vpn), 0) else 0
      ensures data.Keys == old(data).Keys && forall g :: g in held && g in data ==> data[g] == old(data)[g]
      ensures TablesAdded(old(pde), pde, root)
      ensures ok && Slot(root, Pdx(vpn)) !in old(pde) ==>
        pde[Slot(root, Pdx(vpn))] == old(freelist)[0] && old(freelist)[0] in data && data[old(freelist)[0]] == Filled(0)
    {
      hide Inv, Seen, Grown, TablesAdded, AboveUser;
      var k := Slot(root, Pdx(vpn));
      NothingGrown(owner, pde, root);
      ok := true;
      if k !in pde {
        if !alloc {
          return false;
        }
        var f;
        ok, f := Kalloc(held);
        if !ok {
          return;
        }
        WithDataInv(S(), held + {f}, f, zeroPage);
        HeldOwner(S(), held + {f}, f);
        data := data[f := zeroPage];
        WithTableInv(S(), held + {f}, k, f);
        assert held + {f} - {f} == held;
        GrownByTable(old(owner), pde, k, f);
        assert owner[f := TableOf(k.root, k.index)] == old(owner)[f := TableOf(k.root, k.index)];
        pde := pde[k := f];
        owner := owner[f := TableOf(k.root, k.index)];
      }
    }

    /**
     mappages for one user page that is not mapped yet (it panics on one that is). It succeeds exactly when the
     table is there or a page is free for it.
     */
    method MapPage(k: Key, f: nat, perm: Flags, ghost held: set<nat>) returns (ok: bool)
      requires Valid(held) && f in held && k.pid in dirs && k.vpn < USERPAGES && k !in pte
      modifies this`freelist, this`owner, this`data, this`pde, this`pte, this`flags
      ensures Valid(if ok then held - {f} else held)
      ensures ok <==> Price(old(pde), k.pid, Pdx(k.vpn), 0) <= |old(freelist)|
      ensures ok ==> pde.Keys == old(pde).Keys + {Slot(k.pid, Pdx(k.vpn))}
      ensures ok ==> |freelist| == |old(freelist)| - Price(old(pde), k.pid, Pdx(k.vpn), 0)
      ensures pte == if ok then old(pte)[k := f] else old(pte)
      ensures flags == if ok then old(flags)[k := perm] else old(flags)
      ensures f in old(data) && View() == if ok then old(View())[k := old(data)[f]] else old(View())
      ensures TablesAdded(old(pde), pde, k.pid)
      ensures f in owner && f in old(owner) && old(owner)[f] == Held
      ensures Grown(old(owner)[f := FreePage], if ok then owner else owner[f := FreePage], k.pid)
    {
      hide Inv, Seen, Grown, TablesAdded, AboveUser, Price, Pdx;
      HeldOwner(S(), held, f);
      InDirectory(k.vpn);
      ghost var before := owner;
      ok := Walk(k.pid, k.vpn, true, held);
      HeldOwner(S(), held, f);
      GrownByPage(before, owner, f, k);
      if ok {
        SetPte(k, f, perm, held);
      }
    }

    method SetPte(k: Key, f: nat, perm: Flags, ghost held: set<nat>)
      requires Valid(held) && f in held && k !in pte && Slot(k.pid, Pdx(k.vpn)) in pde && k.vpn < USERPAGES
      modifies this`owner, this`pte, this`flags
      ensures Valid(held - {f}) && pte == old(pte)[k := f] && owner == old(owner)[f := UserOf(k.pid, k.vpn)]
      ensures flags == old(flags)[k := perm]
      ensures f in data && View() == old(View())[k := data[f]]
    {
      hide Inv, Seen, AboveUser;
      WithPageInv(S(), held, k, f);
      pte := pte[k := f];
      flags := flags[k := perm];
      owner := owner[f := UserOf(k.pid, k.vpn)];
    }

    /** A new page for k with this content; NoTable leaves the page for the caller to free. */
    method NewPage(k: Key, content: Page, perm: Flags) returns (r: Growth)
      requires Valid({}) && k.pid in dirs && k.vpn < USERPAGES && k !in pte
      modifies this`freelist, this`owner, this`data, this`pde, this`pte, this`flags
      ensures Valid(if r.NoTable? then {r.frame} else {})
      ensures r.NoTable? ==> r.frame in owner
      ensures r.Mapped? <==> Price(old(pde), k.pid, Pdx(k.vpn), 1) <= |old(freelist)|
      ensures r.Mapped? ==> pde.Keys == old(pde).Keys + {Slot(k.pid, Pdx(k.vpn))}
      ensures r.Mapped? ==> |freelist| == |old(freelist)| - Price(old(pde), k.pid, Pdx(k.vpn), 1)
      ensures r.Mapped? ==> k in pte
      ensures pte == if r.Mapped? then old(pte)[k := pte[k]] else old(pte)
      ensures flags == if r.Mapped? then old(flags)[k := perm] else old(flags)
      ensures View() == if r.Mapped? then old(View())[k := content] else old(View())
      ensures Grown(old(owner), if r.NoTable? then owner[r.frame := FreePage] else owner, k.pid)
      ensures TablesAdded(old(pde), pde, k.pid)
    {
      hide Inv, Seen, AboveUser, TablesAdded;
      NoTablesAdded(pde, k.pid);
      var ok, f := Kalloc({});
      if !ok {
        return NoMemory;
      }
      WithDataInv(S(), {} + {f}, f, content);
      HeldOwner(S(), {} + {f}, f);
      data := data[f := content];
      assert {} + {f} - {f} == {} && {} + {f} == {f};
      ghost var o := owner;
      assert o[f := FreePage] == old(owner);
      ok := MapPage(k, f, perm, {} + {f});
      hide Grown;
      r := if ok then Mapped else NoTable(f);
    }

    /** One page of deallocuvm that is present: kfree, and the entry is cleared. */
    method UnmapPage(k: Key, ghost held: set<nat>)
      requires Valid(held) && k in pte
      modifies this`freelist, this`owner, this`data, this`pte, this`flags
      ensures Valid(held) && pte == old(pte) - {k} && View() == old(View()) - {k} && flags == old(flags) - {k}
      ensures PagesFreed(old(owner), owner, k.pid, k.vpn, k.vpn + 1)
    {
      hide Inv, Seen, PagesFreed, AboveUser;
      PageOwner(S(), held, k);
      WithoutPageInv(S(), held, k);
      var f := pte[k];
      FreedOne(owner, f, k);
      assert held + {f} - {f} == held;
      pte := pte - {k};
      flags := flags - {k};
      owner := owner[f := Held];
      Kfree(f, held + {f});
    }

    static lemma PageOwner(s: Space, held: set<nat>, k: Key)
      requires Inv(s, held) && k in s.pte
      ensures forall f :: f in s.owner ==> (s.owner[f] == UserOf(k.pid, k.vpn) <==> f == s.pte[k])
    {
      assert PteOk(s, k);
      forall f | f in s.owner && s.owner[f] == UserOf(k.pid, k.vpn) ensures f == s.pte[k] {
        assert FrameOk(s, held, f);
      }
    }

    /** One turn of deallocuvm's loop, at address a. */
    method DeallocStep(root: nat, a: nat, ghost s0: Space, ghost lo: nat, ghost hi: nat, ghost held: set<nat>)
      returns (b: nat)
      requires Valid(held) && a < KERNBASE && a % PGSIZE == 0 && lo <= a / PGSIZE < hi
      requires Gone(s0, S(), root, lo, a / PGSIZE)
      modifies this`freelist, this`owner, this`data, this`pte, this`flags
      ensures Valid(held) && b % PGSIZE == 0 && b > a && Gone(s0, S(), root, lo, Least(b / PGSIZE, hi))
      ensures FlagsLeft(old(flags), flags)
    {
      hide Inv, Seen, Gone, PagesFreed, AboveUser, SkipDirectory;
      var v := a / PGSIZE;
      b := a;
      if Slot(root, Pdx(v)) !in pde {
        SkipExact(a);
        SkippedDirectory(s0, S(), held, root, lo, a, hi);
        b := SkipDirectory(a);
      } else if Key(root, v) in pte {
        ghost var s := S();
        UnmapPage(Key(root, v), held);
        GoneStep(s0, s, S(), root, lo, v);
      } else {
        SkippedNothing(s0, S(), held, root, lo, v, v + 1);
      }
      b := b + PGSIZE;
    }

    /**
     deallocuvm: from size oldsz down to newsz, exactly the pages above newsz are unmapped and freed,
     although whole absent directory entries are skipped.
     */
    method Deallocuvm(root: nat, oldsz: nat, newsz: nat, ghost held: set<nat>) returns (size: nat)
      requires Valid(held) && oldsz <= KERNBASE
      modifies this`freelist, this`owner, this`data, this`pte, this`flags
      ensures Valid(held) && size == (if newsz >= oldsz then oldsz else newsz)
      ensures Gone(old(S()), S(), root, PageUp(newsz), PageUp(oldsz)) && FlagsLeft(old(flags), flags)
      ensures forall k :: k in pte <==>
        k in old(pte) && !(k.pid == root && (newsz + 4095) / 4096 <= k.vpn < (oldsz + 4095) / 4096)
      ensures forall k :: k in pte ==> k in old(pte) && pte[k] == old(pte)[k] && flags[k] == old(flags)[k]
      ensures dirs == old(dirs) && pde == old(pde)
    {
      hide Inv, Seen, Gone, AboveUser;
      ghost var s0, lo, hi := S(), PageUp(newsz), PageUp(oldsz);
      if newsz >= oldsz {
        NothingGone(s0, root, lo, hi);
        GoneMeans(s0, S(), root, lo, hi);
        return oldsz;
      }
      var a := PageUp(newsz) * PGSIZE;
      NothingGone(s0, root, lo, lo);
      while a < oldsz
        invariant Valid(held) && a % PGSIZE == 0 && lo <= a / PGSIZE && lo <= hi
        invariant Gone(s0, S(), root, lo, Least(a / PGSIZE, hi)) && FlagsLeft(old(flags), flags)
        decreases oldsz - a
      {
        a := DeallocStep(root, a, s0, lo, hi, held);
      }
      GoneMeans(s0, S(), root, lo, hi);
      size := newsz;
    }

    /** freevm's kfree of one table of a directory without user pages. */
    method FreeTable(k: Slot, ghost held: set<nat>)
      requires Valid(held) && k in pde && forall l :: l in pte ==> l.pid != k.root
      modifies this`freelist, this`owner, this`data, this`pde
      ensures Valid(held) && View() == old(View()) && pde == old(pde) - {k}
      ensures owner == old(owner)[old(pde)[k] := Held][old(pde)[k] := FreePage]
    {
      WithoutTableInv(S(), held, k);
      hide Inv, Seen, AboveUser;
      var f := pde[k];
      assert held + {f} - {f} == held;
      pde := pde - {k};
      owner := owner[f := Held];
      Kfree(f, held + {f});
    }

    method FreeDirectory(root: nat, ghost held: set<nat>)
      requires Valid(held) && root in dirs && forall l :: l in pde ==> l.root != root
      modifies this`freelist, this`owner, this`data, this`dirs
      ensures Valid(held) && View() == old(View()) && dirs == old(dirs) - {root}
      ensures owner == old(owner)[root := Held][root := FreePage]
    {
      WithoutDirInv(S(), held, root);
      hide Inv, Seen, AboveUser;
      assert held + {root} - {root} == held;
      dirs := dirs - {root};
      owner := owner[root := Held];
      Kfree(root, held + {root});
    }

    /** freevm: every frame of the directory is freed, each once, and no other frame changes hands. */
    method Freevm(root: nat, ghost held: set<nat>)
      requires Valid(held) && root in dirs
      modifies this`freelist, this`owner, this`data, this`pte, this`flags, this`pde, this`dirs
      ensures Valid(held) && DirectoryGone(old(S()), S(), root) && FlagsLeft(old(flags), flags)
      ensures dirs == old(dirs) - {root} && forall l :: l in pde <==> l in old(pde) && l.root != root
      ensures forall k :: k in pte <==> k in old(pte) && k.pid != root
      ensures forall k :: k in pte ==> k in old(pte) && pte[k] == old(pte)[k] && flags[k] == old(flags)[k]
    {
      hide Inv, Seen, AboveUser, Gone, TornDown, DirectoryGone, PageUp;
      ghost var s0 := S();
      var _ := Deallocuvm(root, KERNBASE, 0, held);
      TearDownBegins(s0, S(), held, root);
      var i := 0;
      while i < NPDENTRIES
        invariant i <= NPDENTRIES && Valid(held) && root in dirs && TornDown(s0, S(), root, i)
        invariant FlagsLeft(old(flags), flags)
        invariant forall l :: l in pte ==> l.pid != root
      {
        ghost var s := S();
        if Slot(root, i) in pde {
          FreeTable(Slot(root, i), held);
        }
        TearDownStep(s0, s, S(), held, root, i);
        i := i + 1;
      }
      ghost var s := S();
      TablesGone(s0, s, held, root);
      FreeDirectory(root, held);
      TearDownEnds(s0, s, S(), held, root);
      DirectoryGoneMeans(s0, S(), held, root);
    }

    static lemma TablesGone(s0: Space, s: Space, held: set<nat>, root: nat)
      requires Inv(s, held) && TornDown(s0, s, root, NPDENTRIES)
      ensures forall l :: l in s.pde ==> l.root != root
    {
      forall l | l in s.pde ensures l.root != root {
        assert PdeOk(s, l);
      }
    }

    /** allocuvm's way out: the pages it has mapped are unmapped, and a page without a table is freed. */
    method FailAlloc(ghost s0: Space, ghost s: Space, root: nat, oldsz: nat, newsz: nat, ghost v: nat, r: Growth)
      requires Inv(s0, {}) && Valid(if r.NoTable? then {r.frame} else {}) && newsz < KERNBASE
      requires PageUp(oldsz) <= v <= PageUp(newsz) && Extended(s0, s, root, PageUp(oldsz), v, zeroPage)
      requires forall x: nat :: PageUp(oldsz) <= x < PageUp(newsz) ==> Key(root, x) !in s0.pte
      requires pte == s.pte && View() == Seen(s) && dirs == s.dirs && TablesAdded(s.pde, pde, root)
      requires r.NoTable? ==> r.frame in owner
      requires Grown(s.owner, if r.NoTable? then owner[r.frame := FreePage] else owner, root)
      modifies this`freelist, this`owner, this`data, this`pte, this`flags
      ensures Valid({}) && Extended(s0, S(), root, PageUp(oldsz), PageUp(oldsz), zeroPage)
      ensures FlagsLeft(old(flags), flags)
    {
      hide Inv, Seen, AboveUser, Extended, Gone, TablesAdded, Grown, PageUp;
      ghost var held := if r.NoTable? then {r.frame} else {};
      ghost var s1 := S().(owner := if r.NoTable? then owner[r.frame := FreePage] else owner);
      SeenIgnoresOwner(S(), s1);
      ExtendedTables(s0, s, s1, root, PageUp(oldsz), v, zeroPage);
      ghost var s2 := S();
      var _ := Deallocuvm(root, newsz, oldsz, held);
      if r.NoTable? {
        GoneBesideHeld(s2, S(), r.frame, root, PageUp(oldsz), PageUp(newsz));
        ghost var s3 := S().(owner := owner[r.frame := FreePage]);
        SeenIgnoresOwner(S(), s3);
        assert held - {r.frame} == {};
        Kfree(r.frame, held);
        GoneSeen(s1, s3, S(), root, PageUp(oldsz), PageUp(newsz));
      }
      ExtensionUndone(s0, s1, S(), root, PageUp(oldsz), v, PageUp(newsz), zeroPage);
    }

    /** One turn of allocuvm's loop: page v, or the way out. */
    method AllocPage(root: nat, v: nat, oldsz: nat, newsz: nat, ghost s0: Space) returns (ok: bool)
      requires Inv(s0, {}) && Valid({}) && root in dirs && newsz < KERNBASE && PageUp(oldsz) <= v < PageUp(newsz)
      requires v < USERPAGES
      requires forall x: nat :: PageUp(oldsz) <= x < PageUp(newsz) ==> Key(root, x) !in s0.pte
      requires Extended(s0, S(), root, PageUp(oldsz), v, zeroPage)
      requires Spent(s0.pde, |s0.freelist|, pde, |freelist|, root, v - PageUp(oldsz), {} + Tables(PageUp(oldsz), v))
      modifies this`freelist, this`owner, this`data, this`pde, this`pte, this`flags
      ensures Valid({})
      ensures Extended(s0, S(), root, PageUp(oldsz), if ok then v + 1 else PageUp(oldsz), zeroPage)
      ensures if ok then flags == old(flags)[Key(root, v) := Flags(true, true)] else FlagsLeft(old(flags), flags)
      ensures ok ==>
        Spent(s0.pde, |s0.freelist|, pde, |freelist|, root, v + 1 - PageUp(oldsz),
          {} + Tables(PageUp(oldsz), v + 1))
      ensures !ok ==>
        |s0.freelist| <
        PageUp(newsz) - PageUp(oldsz) + |Missing(s0.pde, root, {} + Tables(PageUp(oldsz), PageUp(newsz)))|
    {
      hide Inv, Seen, AboveUser, Extended, Gone, TablesAdded, Grown, Spent, Missing, Tables, Price, Pdx, PageUp;
      ghost var s, lo := S(), PageUp(oldsz);
      NotYet(s0, s, root, lo, v, zeroPage);
      NextPage(s0.pde, |s0.freelist|, pde, |freelist|, root, v - lo, {}, lo, v, PageUp(newsz));
      var r := NewPage(Key(root, v), zeroPage, Flags(true, true));
      ok := r.Mapped?;
      if ok {
        ExtendedStep(s0, s, S(), root, lo, v, zeroPage);
        SpentStep(s0.pde, |s0.freelist|, s.pde, |s.freelist|, pde, root, v - lo, {} + Tables(lo, v), Pdx(v), 1);
        MoreTables({}, lo, v);
      } else {
        FailAlloc(s0, s, root, oldsz, newsz, v, r);
      }
    }

    /**
     allocuvm from size oldsz to newsz on pages that are not mapped yet: zeroed pages of its own, or a result
     of 0 and exactly the user mapping that there was. It succeeds exactly when there are enough free pages for
     the new pages and for the tables that are missing.
     */
    method Allocuvm(root: nat, oldsz: nat, newsz: nat) returns (size: nat)
      requires Valid({}) && root in dirs
      requires forall x: nat :: PageUp(oldsz) <= x < PageUp(newsz) ==> Key(root, x) !in pte
      modifies this`freelist, this`owner, this`data, this`pde, this`pte, this`flags
      ensures Valid({})
      ensures newsz >= KERNBASE ==> size == 0
      ensures newsz < KERNBASE && newsz < oldsz ==> size == oldsz
      ensures newsz < KERNBASE && newsz >= oldsz ==> size == newsz || size == 0
      ensures oldsz <= newsz < KERNBASE ==>
        (size == newsz <==>
         PageUp(newsz) - PageUp(oldsz) + |Missing(old(pde), root, Tables(PageUp(oldsz), PageUp(newsz)))|
         <= |old(freelist)|)
      ensures var full := oldsz <= newsz < KERNBASE && size == newsz;
              Extended(old(S()), S(), root, PageUp(oldsz), if full then PageUp(newsz) else PageUp(oldsz), zeroPage)
      ensures oldsz <= newsz < KERNBASE && size == newsz ==>
        forall v: nat :: (oldsz + 4095) / 4096 <= v < (newsz + 4095) / 4096 ==>
        && Key(root, v) in pte && flags[Key(root, v)] == Flags(true, true)
        && pte[Key(root, v)] in data && data[pte[Key(root, v)]] == Filled(0)
      ensures forall k :: k in old(pte) ==>
        && k in pte && pte[k] == old(pte)[k] && flags[k] == old(flags)[k]
        && pte[k] in data && pte[k] in old(data) && data[pte[k]] == old(data)[pte[k]]
      ensures forall k :: k in pte ==>
        k in old(pte) || (k.pid == root && (oldsz + 4095) / 4096 <= k.vpn < (newsz + 4095) / 4096)
      ensures !(oldsz <= newsz < KERNBASE && size == newsz) ==> pte == old(pte) && flags == old(flags)
    {
      hide Inv, Seen, AboveUser, Extended, Missing, Tables;
      ghost var s0, f0, lo, hi := S(), flags, PageUp(oldsz), PageUp(newsz);
      ExtendedNothing(s0, root, lo, zeroPage);
      ExtendedMeans(s0, s0, root, lo, lo, zeroPage);
      if newsz >= KERNBASE {
        return 0;
      }
      if newsz < oldsz {
        return oldsz;
      }
      var ok := AllocPages(root, oldsz, newsz, s0, f0);
      ExtendedMeans(s0, S(), root, lo, if ok then hi else lo, zeroPage);
      size := if ok then newsz else 0;
    }

    /** The loop of allocuvm. */
    method AllocPages(root: nat, oldsz: nat, newsz: nat, ghost s0: Space, ghost f0: map<Key, Flags>) returns (ok: bool)
      requires Valid({}) && s0 == S() && f0 == flags && root in dirs && oldsz <= newsz < KERNBASE
      requires forall x: nat :: PageUp(oldsz) <= x < PageUp(newsz) ==> Key(root, x) !in pte
      modifies this`freelist, this`owner, this`data, this`pde, this`pte, this`flags
      ensures Valid({})
      ensures ok <==>
        PageUp(newsz) - PageUp(oldsz) + |Missing(s0.pde, root, Tables(PageUp(oldsz), PageUp(newsz)))| <= |s0.freelist|
      ensures Extended(s0, S(), root, PageUp(oldsz), if ok then PageUp(newsz) else PageUp(oldsz), zeroPage)
      ensures FlagsKept(f0, flags) && (!ok ==> flags == f0 && newsz > 0)
      ensures ok ==> ForUser(flags, root, PageUp(oldsz), PageUp(newsz))
    {
      hide Inv, Seen, AboveUser, Extended, Gone, TablesAdded, Grown, Spent, Missing, Tables, Price, Pdx, FlagsLeft,
        FlagsKept, ForUser, PageUp;
      KeptAndNone(f0, root, PageUp(oldsz));
      ghost var lo, hi := PageUp(oldsz), PageUp(newsz);
      ExtendedNothing(s0, root, lo, zeroPage);
      var a := PageUp(oldsz) * PGSIZE;
      ghost var p := lo;
      PagesInOrder(oldsz, newsz);
      SpentStart(pde, |freelist|, root, lo);
      NoBase(Tables(lo, hi));
      while a < newsz
        invariant Valid({}) && root in dirs && a == p * PGSIZE && lo <= p <= hi
        invariant Extended(s0, S(), root, lo, p, zeroPage) && FlagsKept(f0, flags)
        invariant ForUser(flags, root, lo, p)
        invariant Spent(s0.pde, |s0.freelist|, pde, |freelist|, root, p - lo, {} + Tables(lo, p))
      {
        PageNumber(p);
        PageUpExact(a, newsz);
        ghost var f1 := flags;
        ok := AllocPage(root, a / PGSIZE, oldsz, newsz, s0);
        if !ok {
          ExtendedMeans(s0, S(), root, lo, lo, zeroPage);
          FlagsBack(f0, f1, flags);
          return;
        }
        FlagsMore(f0, f1, Key(root, p), Flags(true, true));
        OneMoreForUser(f1, root, lo, p);
        p := p + 1;
        a := a + PGSIZE;
      }
      ok := true;
      PageNumber(p);
      PageUpExact(a, newsz);
      SpentEnough(s0.pde, |s0.freelist|, pde, |freelist|, root, hi - lo, {} + Tables(lo, hi));
    }

    /** The first page of setupkvm: an empty directory. */
    method NewRoot() returns (ok: bool, root: nat)
      requires Valid({})
      modifies this`freelist, this`owner, this`data, this`dirs
      ensures Valid({}) && View() == old(View())
      ensures ok <==> |old(freelist)| >= 1
      ensures ok ==> NewDirectory(old(S()), S(), root, 0) && pde == old(pde) && |freelist| == |old(freelist)| - 1
      ensures ok ==> root == old(freelist)[0] && root in data && data[root] == Filled(0)
      ensures !ok ==> Restored(old(S()), S())
    {
      hide Inv, Seen, AboveUser;
      ghost var s0 := S();
      ok, root := Kalloc({});
      if ok {
        WithDataInv(S(), {} + {root}, root, zeroPage);
        data := data[root := zeroPage];
        WithDirInv(S(), {} + {root}, root);
        assert {} + {root} - {root} == {};
        dirs := dirs + {root};
        owner := owner[root := Directory];
        NoTablesAdded(pde, root);
        ForkNothing(View(), root, root);
      }
    }

    /**
     setupkvm: a directory with the kernel's tables and no user page, or no trace of it; the former exactly when
     there are free pages for the directory and for every table that the kernel's rows touch.
     */
    method Setupkvm() returns (ok: bool, root: nat)
      requires Valid({})
      modifies this`freelist, this`owner, this`data, this`pte, this`flags, this`pde, this`dirs
      ensures Valid({})
      ensures ok <==> 1 + |KernelTables(kmap, |kmap|)| <= |old(freelist)|
      ensures ok ==> NewDirectory(old(S()), S(), root, 0) && View() == old(View())
      ensures ok ==>
        Spent(old(pde), |old(freelist)|, pde, |freelist|, root, 1, KernelTables(kmap, |kmap|))
      ensures flags == old(flags)
      ensures !ok ==> Restored(old(S()), S())
    {
      hide Inv, Seen, Grown, TablesAdded, NewDirectory, Restored, DirectoryGone, Spent, Missing, Tables;
      ghost var s0, f0 := S(), flags;
      ok, root := NewRoot();
      if !ok {
        return;
      }
      NewDirectoryHas(s0, S(), root, 0);
      Stranger(s0, root);
      RootSpent(pde, |s0.freelist|, root);
      var row := 0;
      while row < |kmap|
        invariant row <= |kmap| && Valid({}) && NewDirectory(s0, S(), root, 0) && View() == Seen(s0) && flags == f0
        invariant Spent(s0.pde, |s0.freelist|, pde, |freelist|, root, 1, KernelTables(kmap, row))
      {
        ok := MapRow(root, kmap[row].0, kmap[row].1, s0, KernelTables(kmap, row));
        if !ok {
          LackingRows(s0.pde, root, row + 1);
          ghost var s := S();
          NewDirectoryHas(s0, s, root, 0);
          Freevm(root, {});
          NothingForked(Seen(s0), root);
          NewDirectoryGone(s0, s, S(), root, 0);
          RestoredPages(s0, S());
          FlagsBack(f0, f0, flags);
          return;
        }
        row := row + 1;
      }
      SpentNew(s0.pde, |s0.freelist|, pde, |freelist|, root, 1, KernelTables(kmap, |kmap|));
    }

    static lemma RestoredPages(s0: Space, s: Space)
      requires Restored(s0, s)
      ensures s.pte == s0.pte && s.dirs == s0.dirs && s.pde == s0.pde
    {
    }

    lemma LackingRows(p: map<Slot, nat>, root: nat, n: nat)
      requires n <= |kmap| && forall l :: l in p ==> l.root != root
      ensures |Missing(p, root, KernelTables(kmap, n))| <= |KernelTables(kmap, |kmap|)|
    {
      KernelWithin(kmap, n, |kmap|);
      SubsetCount(Missing(p, root, KernelTables(kmap, n)), KernelTables(kmap, |kmap|));
    }

    static lemma NewDirectoryHas(s0: Space, s: Space, root: nat, n: nat)
      requires NewDirectory(s0, s, root, n)
      ensures root in s.dirs && root !in s0.dirs
    {
    }

    static lemma NothingForked(v: Views, root: nat)
      ensures v - ChildKeys(root, 0) == v
    {
    }

    /** mappages for one row of kmap, as far as it needs tables. */
    method MapRow(root: nat, first: nat, count: nat, ghost s0: Space, ghost had: set<nat>) returns (ok: bool)
      requires Valid({}) && NewDirectory(s0, S(), root, 0) && first + count <= NPDENTRIES * NPTENTRIES
      requires Spent(s0.pde, |s0.freelist|, pde, |freelist|, root, 1, had)
      modifies this`freelist, this`owner, this`data, this`pde
      ensures Valid({}) && NewDirectory(s0, S(), root, 0) && View() == old(View())
      ensures ok ==>
        Spent(s0.pde, |s0.freelist|, pde, |freelist|, root, 1, had + Tables(first, first + count))
      ensures !ok ==> |s0.freelist| < 1 + |Missing(s0.pde, root, had + Tables(first, first + count))|
    {
      hide Inv, Seen, AboveUser, Grown, TablesAdded, Spent, Missing, Tables, Price, Pdx;
      ok := true;
      var j := 0;
      NoTables(had, first);
      while j < count
        invariant j <= count && Valid({}) && NewDirectory(s0, S(), root, 0) && View() == old(View())
        invariant Spent(s0.pde, |s0.freelist|, pde, |freelist|, root, 1, had + Tables(first, first + j))
      {
        ghost var s := S();
        InDirectory(first + j);
        NextTable(s0.pde, |s0.freelist|, pde, |freelist|, root, 1, had, first, first + j, first + count);
        ok := Walk(root, first + j, true, {});
        GrownTwice(s0.owner, s.owner, owner, root);
        TablesAddedTwice(s0.pde, s.pde, pde, root);
        if !ok {
          return;
        }
        MoreTables(had, first, first + j);
        SpentStep(s0.pde, |s0.freelist|, s.pde, |s.freelist|, pde, root, 1, had + Tables(first, first + j),
          Pdx(first + j), 0);
        j := j + 1;
      }
    }

    /**
     copyuvm of the first sz bytes of a directory whose pages there are all mapped (it panics otherwise): the
     child gets private copies, as in the eager fork, or every page is back where it was. The former happens
     exactly when there are free pages for the copies, the directory and all its tables.
     */
    method Copyuvm(parent: nat, sz: nat) returns (ok: bool, child: nat)
      requires Valid({}) && parent in dirs && sz <= KERNBASE
      requires forall v: nat :: v < PageUp(sz) ==> Key(parent, v) in pte
      modifies this`freelist, this`owner, this`data, this`pte, this`flags, this`pde, this`dirs
      ensures Valid({})
      ensures ok <==>
        1 + PageUp(sz) + |KernelTables(kmap, |kmap|) + Tables(0, PageUp(sz))| <= |old(freelist)|
      ensures ok ==> NewDirectory(old(S()), S(), child, PageUp(sz))
      ensures ok ==> View() == EagerFork(old(View()), parent, child, PageUp(sz))
      ensures ok ==> child !in old(dirs) && child in dirs && forall v: nat :: v < (sz + 4095) / 4096 ==>
        && Key(child, v) in pte && Key(child, v) !in old(pte) && pte[Key(child, v)] in data
        && old(pte)[Key(parent, v)] in old(data)
        && data[pte[Key(child, v)]] == old(data)[old(pte)[Key(parent, v)]]
        && flags[Key(child, v)] == old(flags)[Key(parent, v)]
      ensures ok ==> forall k :: k in old(pte) ==>
        && k in pte && pte[k] == old(pte)[k] && flags[k] == old(flags)[k]
        && pte[k] in data && pte[k] in old(data) && data[pte[k]] == old(data)[pte[k]]
      ensures ok ==> forall k :: k in pte ==> k in old(pte) || (k.pid == child && k.vpn < (sz + 4095) / 4096)
      ensures !ok ==> Restored(old(S()), S())
      ensures !ok ==> pte == old(pte) && pde == old(pde) && dirs == old(dirs) && flags == old(flags)
    {
      hide Inv, Seen, AboveUser, Grown, TablesAdded, NewDirectory, Restored, DirectoryGone, EagerFork, Spent, Missing,
        Tables, Price, Pdx;
      ghost var s0, f0, n, kernel := S(), flags, PageUp(sz), KernelTables(kmap, |kmap|);
      ok, child := Setupkvm();
      if !ok {
        RestoredPages(s0, S());
        SubsetCount(kernel, kernel + Tables(0, n));
        return;
      }
      ok := CopyPages(parent, child, sz, s0, f0);
      if ok {
        CopyMeans(s0, S(), parent, child, n);
      } else {
        RestoredPages(s0, S());
      }
    }

    /** The loop of copyuvm. */
    method CopyPages(parent: nat, child: nat, sz: nat, ghost s0: Space, ghost f0: map<Key, Flags>) returns (ok: bool)
      requires Valid({}) && Inv(s0, {}) && parent in s0.dirs && sz <= KERNBASE && flags == f0
      requires forall v: nat :: v < PageUp(sz) ==> Key(parent, v) in s0.pte && Key(parent, v) in f0
      requires NewDirectory(s0, S(), child, 0) && View() == Seen(s0) && f0.Keys == s0.pte.Keys
      requires Spent(s0.pde, |s0.freelist|, pde, |freelist|, child, 1, KernelTables(kmap, |kmap|))
      modifies this`freelist, this`owner, this`data, this`pte, this`flags, this`pde, this`dirs
      ensures Valid({})
      ensures ok <==> 1 + PageUp(sz) + |KernelTables(kmap, |kmap|) + Tables(0, PageUp(sz))| <= |s0.freelist|
      ensures ok ==> NewDirectory(s0, S(), child, PageUp(sz))
      ensures ok ==> View() == EagerFork(Seen(s0), parent, child, PageUp(sz)) && FlagsKept(f0, flags)
      ensures ok ==> forall v: nat :: v < PageUp(sz) ==>
        Key(child, v) in flags && Key(parent, v) in f0 && flags[Key(child, v)] == f0[Key(parent, v)]
      ensures !ok ==> Restored(s0, S()) && flags == f0
    {
      hide Inv, Seen, AboveUser, Grown, TablesAdded, NewDirectory, Restored, DirectoryGone, EagerFork, Spent, Missing,
        Tables, Price, Pdx;
      ghost var n, kernel := PageUp(sz), KernelTables(kmap, |kmap|);
      NoTables(kernel, 0);
      NewDirectoryHas(s0, S(), child, 0);
      Stranger(s0, child);
      SeenKeys(s0, {});
      ForkNothing(Seen(s0), parent, child);
      var i := 0;
      ghost var p := 0;
      ok := true;
      while i < sz
        invariant Valid({}) && i == p * PGSIZE && p <= n && NewDirectory(s0, S(), child, p)
        invariant View() == EagerFork(Seen(s0), parent, child, p) && FlagsKept(f0, flags)
        invariant forall v: nat :: v < p ==>
          Key(child, v) in flags && Key(parent, v) in f0 && flags[Key(child, v)] == f0[Key(parent, v)]
        invariant Spent(s0.pde, |s0.freelist|, pde, |freelist|, child, 1 + p, kernel + Tables(0, p))
      {
        PageUpExact(i, sz);
        ghost var f1 := flags;
        ok := CopyPage(parent, child, i / PGSIZE, s0, n, kernel);
        if !ok {
          RestoredPages(s0, S());
          FlagsBack(f0, f1, flags);
          return;
        }
        FlagsMore(f0, f1, Key(child, p), f1[Key(parent, p)]);
        KeptAt(f0, f1, Key(parent, p));
        p := p + 1;
        i := i + PGSIZE;
      }
      ok := true;
      PageUpExact(i, sz);
      SpentNew(s0.pde, |s0.freelist|, pde, |freelist|, child, 1 + n, kernel + Tables(0, n));
    }

    /** One turn of copyuvm's loop: page v, or the way out. */
    method CopyPage(parent: nat, child: nat, v: nat, ghost s0: Space, ghost n: nat, ghost kernel: set<nat>)
      returns (ok: bool)
      requires Inv(s0, {}) && Valid({}) && v < n && v < USERPAGES && NewDirectory(s0, S(), child, v)
      requires parent in s0.dirs && Key(parent, v) in s0.pte
      requires View() == EagerFork(Seen(s0), parent, child, v)
      requires Spent(s0.pde, |s0.freelist|, pde, |freelist|, child, 1 + v, kernel + Tables(0, v))
      modifies this`freelist, this`owner, this`data, this`pte, this`flags, this`pde, this`dirs
      ensures Valid({})
      ensures ok ==> NewDirectory(s0, S(), child, v + 1) && View() == EagerFork(Seen(s0), parent, child, v + 1)
      ensures ok ==> Spent(s0.pde, |s0.freelist|, pde, |freelist|, child, 1 + v + 1, kernel + Tables(0, v + 1))
      ensures Key(parent, v) in old(flags)
      ensures if ok then flags == old(flags)[Key(child, v) := old(flags)[Key(parent, v)]]
              else FlagsLeft(old(flags), flags)
      ensures !ok ==> Restored(s0, S()) && |s0.freelist| < 1 + n + |kernel + Tables(0, n)|
    {
      hide Inv, Seen, AboveUser, Grown, TablesAdded, NewDirectory, Restored, DirectoryGone, EagerFork, Spent, Missing,
        Tables, Price, Pdx;
      ghost var s := S();
      CopySource(s0, s, parent, child, v);
      ForkStep(Seen(s0), parent, child, v);
      NextPage(s0.pde, |s0.freelist|, pde, |freelist|, child, 1 + v, kernel, 0, v, n);
      NewDirectoryHas(s0, s, child, v);
      Stranger(s0, child);
      AllMissing(s0.pde, child, kernel + Tables(0, n));
      var r := NewPage(Key(child, v), data[pte[Key(parent, v)]], flags[Key(parent, v)]);
      ok := r.Mapped?;
      if ok {
        NewDirectoryStep(s0, s, S(), child, v, true);
        MoreTables(kernel, 0, v);
        SpentStep(s0.pde, |s0.freelist|, s.pde, |s.freelist|, pde, child, 1 + v, kernel + Tables(0, v), Pdx(v), 1);
      } else {
        FailCopy(s0, s, parent, child, v, r);
      }
    }

    /** The page to copy is there and holds what it held at the start. */
    static lemma CopySource(s0: Space, s: Space, parent: nat, child: nat, v: nat)
      requires Inv(s0, {}) && Inv(s, {}) && NewDirectory(s0, s, child, v) && parent in s0.dirs
      requires Key(parent, v) in s0.pte
      requires Seen(s) == EagerFork(Seen(s0), parent, child, v)
      ensures parent != child && child in s.dirs && Key(parent, v) in Seen(s0) && Key(child, v) !in s.pte
      ensures Key(child, v) !in s0.pte
      ensures Key(parent, v) in s.pte && s.pte[Key(parent, v)] in s.data
      ensures s.data[s.pte[Key(parent, v)]] == Seen(s0)[Key(parent, v)] && v < USERPAGES
    {
      Stranger(s0, child);
      SeenKeys(s0, {});
      SeenKeys(s, {});
      assert PteOk(s0, Key(parent, v));
      assert Key(parent, v) in Seen(s) && Seen(s)[Key(parent, v)] == Seen(s0)[Key(parent, v)];
    }

    /** copyuvm's way out: the page without a table is freed, and then the whole child. */
    method FailCopy(ghost s0: Space, ghost s: Space, ghost parent: nat, child: nat, ghost v: nat, r: Growth)
      requires Inv(s0, {}) && Valid(if r.NoTable? then {r.frame} else {}) && v < USERPAGES
      requires NewDirectory(s0, s, child, v) && Key(child, v) !in s0.pte
      requires View() == EagerFork(Seen(s0), parent, child, v)
      requires pte == s.pte && dirs == s.dirs && TablesAdded(s.pde, pde, child)
      requires r.NoTable? ==> r.frame in owner
      requires Grown(s.owner, if r.NoTable? then owner[r.frame := FreePage] else owner, child)
      modifies this`freelist, this`owner, this`data, this`pte, this`flags, this`pde, this`dirs
      ensures Valid({}) && Restored(s0, S()) && FlagsLeft(old(flags), flags)
    {
      hide Inv, Seen, AboveUser, Grown, TablesAdded, NewDirectory, Restored, DirectoryGone, EagerFork;
      if r.NoTable? {
        assert {r.frame} - {r.frame} == {};
        Kfree(r.frame, {r.frame});
      }
      ghost var s1 := S();
      NewDirectoryStep(s0, s, s1, child, v, false);
      NewDirectoryHas(s0, s1, child, v);
      Stranger(s0, child);
      SeenKeys(s0, {});
      Freevm(child, {});
      ForkMinusChild(Seen(s0), parent, child, v);
      NewDirectoryGone(s0, s1, S(), child, v);
    }

    static lemma HeldOwner(s: Space, held: set<nat>, f: nat)
      requires Inv(s, held) && f in held
      ensures f in s.owner && s.owner[f] == Held && f in s.data
    {
      assert FrameOk(s, held, f);
    }
  }
}
