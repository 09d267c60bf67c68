/** How many free pages the operations of vm.c take: their pages, and one for each page table that is absent. */
module PageCosts {
  import opened PageSpec

  /** The directory entries of the pages lo, ..., hi - 1. */
  ghost function Tables(lo: nat, hi: nat): set<nat> {
    if hi <= lo then {} else Tables(lo, hi - 1) + {Pdx(hi - 1)}
  }

  /** The directory entries of the first n rows of the kernel's map. */
  ghost function KernelTables(rows: seq<(nat, nat)>, n: nat): set<nat>
    requires n <= |rows|
  {
    if n == 0 then {} else KernelTables(rows, n - 1) + Tables(rows[n - 1].0, rows[n - 1].0 + rows[n - 1].1)
  }

  /** Those that a directory lacks. */
  ghost function Missing(p: map<Slot, nat>, root: nat, tables: set<nat>): set<nat> {
    set x | x in tables && Slot(root, x) !in p
  }

  lemma {:induction false} SubsetCount(a: set<nat>, b: set<nat>)
    requires a <= b
    ensures |a| <= |b|
  {
    assert b == a + (b - a);
    assert |b| == |a| + |b - a|;
  }

  lemma MissingMore(p: map<Slot, nat>, root: nat, tables: set<nat>, more: set<nat>)
    requires tables <= more
    ensures |Missing(p, root, tables)| <= |Missing(p, root, more)|
  {
    SubsetCount(Missing(p, root, tables), Missing(p, root, more));
  }

  /** A directory that is new lacks all of them. */
  lemma AllMissing(p: map<Slot, nat>, root: nat, tables: set<nat>)
    requires forall l :: l in p ==> l.root != root
    ensures Missing(p, root, tables) == tables
  {
  }

  /** The price of one page behind directory entry x, or of making sure of its table only. */
  function Price(p: map<Slot, nat>, root: nat, x: nat, pages: nat): nat {
    pages + if Slot(root, x) in p then 0 else 1
  }

  /** From p0 with free0 free pages on, a directory has got these tables, and `pages` pages were taken besides. */
  ghost predicate Spent(p0: map<Slot, nat>, free0: nat, p: map<Slot, nat>, free: nat, root: nat, pages: nat,
                        tables: set<nat>) {
    && (forall x :: Slot(root, x) in p <==> Slot(root, x) in p0 || x in tables)
    && free0 == free + pages + |Missing(p0, root, tables)|
  }

  lemma SpentNothing(p: map<Slot, nat>, free: nat, root: nat)
    ensures Spent(p, free, p, free, root, 0, {})
  {
    assert Missing(p, root, {}) == {};
  }

  /** One more page, or one more table. */
  lemma SpentStep(p0: map<Slot, nat>, free0: nat, p: map<Slot, nat>, free: nat, q: map<Slot, nat>, root: nat, n: nat,
                  tables: set<nat>, x: nat, pages: nat)
    requires Spent(p0, free0, p, free, root, n, tables)
    requires q.Keys == p.Keys + {Slot(root, x)}
    ensures Price(p, root, x, pages) <= free ==>
      Spent(p0, free0, q, free - Price(p, root, x, pages), root, n + pages, tables + {x})
    ensures Price(p, root, x, pages) > free ==> free0 < n + pages + |Missing(p0, root, tables + {x})|
  {
    MissingOne(p0, root, tables, x);
  }

  lemma MissingOne(p: map<Slot, nat>, root: nat, tables: set<nat>, x: nat)
    ensures |Missing(p, root, tables + {x})| ==
            |Missing(p, root, tables)| + if Slot(root, x) in p || x in tables then 0 else 1
  {
    if Slot(root, x) in p || x in tables {
      assert Missing(p, root, tables + {x}) == Missing(p, root, tables);
    } else {
      assert Missing(p, root, tables + {x}) == Missing(p, root, tables) + {x};
    }
  }

  lemma {:induction false} TablesWithin(lo: nat, v: nat, hi: nat)
    requires v <= hi
    ensures Tables(lo, v) <= Tables(lo, hi)
    decreases hi
  {
    if v < hi {
      TablesWithin(lo, v, hi - 1);
    }
  }

  lemma {:induction false} KernelWithin(rows: seq<(nat, nat)>, n: nat, m: nat)
    requires n <= m <= |rows|
    ensures KernelTables(rows, n) <= KernelTables(rows, m)
    decreases m
  {
    if n < m {
      KernelWithin(rows, n, m - 1);
    }
  }

  /** What is lacking after some pages is lacking for all of them. */
  lemma LackingForAll(p: map<Slot, nat>, root: nat, base: set<nat>, lo: nat, v: nat, hi: nat)
    requires v <= hi
    ensures |Missing(p, root, base + Tables(lo, v))| <= |Missing(p, root, base + Tables(lo, hi))|
  {
    TablesWithin(lo, v, hi);
    MissingMore(p, root, base + Tables(lo, v), base + Tables(lo, hi));
  }
}
