/**
 Who owns each physical page (vm.c and kalloc.c of Assignment1): the free list, a page directory, a page
 table, a user mapping, or the operation that is running.

 A directory is named by the frame it is in. Its present entries are the map `pde`, keyed by directory and
 index; the present user entries of its tables are the map `pte`, keyed by directory and virtual page.
 */
module PageSpec {
  import opened PrivatePages

  const PGSIZE: nat := 4096
  const NPDENTRIES: nat := 1024
  const NPTENTRIES: nat := 1024
  const KERNBASE: nat := 0x8000_0000
  const USERPAGES: nat := 0x8_0000  // KERNBASE / PGSIZE

  datatype Slot = Slot(root: nat, index: nat)

  datatype Owner = FreePage | Held | Directory | TableOf(root: nat, index: nat) | UserOf(root: nat, vpn: nat)

  datatype Space = Space(
    freelist: seq<nat>, dirs: set<nat>, pde: map<Slot, nat>, pte: map<Key, nat>, data: map<nat, Page>,
    owner: map<nat, Owner>)

  /** PDX of a virtual page. */
  function Pdx(vpn: nat): nat {
    vpn / NPTENTRIES
  }

  /** The owner recorded for a frame really has it. */
  predicate FrameOk(s: Space, held: set<nat>, f: nat)
    requires f in s.owner
  {
    match s.owner[f]
    case FreePage => f in s.freelist && f !in held
    case Held => f in held
    case Directory => f in s.dirs && f !in held
    case TableOf(r, x) => Slot(r, x) in s.pde && s.pde[Slot(r, x)] == f && f !in held
    case UserOf(r, v) => Key(r, v) in s.pte && s.pte[Key(r, v)] == f && f !in held
  }

  predicate FreeOk(s: Space) {
    && (forall i {:trigger s.freelist[i]} :: 0 <= i < |s.freelist| ==>
          s.freelist[i] in s.owner && s.owner[s.freelist[i]] == FreePage)
    && (forall i, j :: 0 <= i < j < |s.freelist| ==> s.freelist[i] != s.freelist[j])
  }

  predicate PdeOk(s: Space, k: Slot)
    requires k in s.pde
  {
    k.root in s.dirs && k.index < NPDENTRIES && s.pde[k] in s.owner && s.owner[s.pde[k]] == TableOf(k.root, k.index)
  }

  /** A user mapping lies in a present table, below KERNBASE, and its frame is its own. */
  predicate PteOk(s: Space, k: Key)
    requires k in s.pte
  {
    && Slot(k.pid, Pdx(k.vpn)) in s.pde && k.vpn < USERPAGES
    && s.pte[k] in s.owner && s.owner[s.pte[k]] == UserOf(k.pid, k.vpn)
  }

  /** Every page has exactly one owner, and everything in use is recorded. */
  predicate Inv(s: Space, held: set<nat>) {
    && s.data.Keys == s.owner.Keys
    && held <= s.owner.Keys
    && (forall f {:trigger s.owner[f]} :: f in s.owner ==> FrameOk(s, held, f))
    && FreeOk(s)
    && (forall r :: r in s.dirs ==> r in s.owner && s.owner[r] == Directory)
    && (forall k :: k in s.pde ==> PdeOk(s, k))
    && (forall k :: k in s.pte ==> PteOk(s, k))
  }

  /** What each directory's user pages hold. */
  ghost function Seen(s: Space): Views {
    map k | k in s.pte && s.pte[k] in s.data :: s.data[s.pte[k]]
  }

  /** In short: free pages, directories, tables and user pages are disjoint and are all the pages there are. */
  lemma PagesPartitioned(s: Space)
    requires Inv(s, {})
    ensures s.owner.Keys == (set f | f in s.freelist) + s.dirs + s.pde.Values + s.pte.Values
    ensures (set f | f in s.freelist) !! s.dirs !! s.pde.Values !! s.pte.Values
    ensures forall k, l :: k in s.pte && l in s.pte && s.pte[k] == s.pte[l] ==> k == l
    ensures forall k, l :: k in s.pde && l in s.pde && s.pde[k] == s.pde[l] ==> k == l
  {
    var free := set f | f in s.freelist;
    forall f | f in s.owner ensures f in free + s.dirs + s.pde.Values + s.pte.Values {
      assert FrameOk(s, {}, f);
    }
    forall k | k in s.pde ensures PdeOk(s, k) {
    }
    forall k | k in s.pte ensures PteOk(s, k) {
    }
    forall f | f in free ensures f in s.owner && s.owner[f] == FreePage {
      var i :| 0 <= i < |s.freelist| && s.freelist[i] == f;
    }
  }

  // ---------- The changes an operation makes ----------

  function Popped(s: Space): Space
    requires s.freelist != []
  {
    s.(freelist := s.freelist[1..], owner := s.owner[s.freelist[0] := Held])
  }

  function Pushed(s: Space, f: nat, junk: Page): Space {
    s.(freelist := [f] + s.freelist, owner := s.owner[f := FreePage], data := s.data[f := junk])
  }

  function WithDir(s: Space, f: nat): Space {
    s.(dirs := s.dirs + {f}, owner := s.owner[f := Directory])
  }

  function WithTable(s: Space, k: Slot, f: nat): Space {
    s.(pde := s.pde[k := f], owner := s.owner[f := TableOf(k.root, k.index)])
  }

  function WithPage(s: Space, k: Key, f: nat): Space {
    s.(pte := s.pte[k := f], owner := s.owner[f := UserOf(k.pid, k.vpn)])
  }

  function WithData(s: Space, f: nat, page: Page): Space {
    s.(data := s.data[f := page])
  }

  function WithoutPage(s: Space, k: Key): Space
    requires k in s.pte
  {
    s.(pte := s.pte - {k}, owner := s.owner[s.pte[k] := Held])
  }

  function WithoutTable(s: Space, k: Slot): Space
    requires k in s.pde
  {
    s.(pde := s.pde - {k}, owner := s.owner[s.pde[k] := Held])
  }

  function WithoutDir(s: Space, r: nat): Space {
    s.(dirs := s.dirs - {r}, owner := s.owner[r := Held])
  }

  /** Directory and table entries stay good while only frames that are held or free change hands. */
  lemma LinksKept(s: Space, t: Space, held: set<nat>)
    requires Inv(s, held) && t.pde == s.pde && t.pte == s.pte && s.dirs <= t.dirs && t.owner.Keys == s.owner.Keys
    requires s.data.Keys == t.data.Keys
    requires forall g :: g in s.owner && s.owner[g] != FreePage && s.owner[g] != Held ==>
      t.owner[g] == s.owner[g] && t.data[g] == s.data[g]
    ensures (forall k :: k in t.pde ==> PdeOk(t, k)) && (forall k :: k in t.pte ==> PteOk(t, k))
    ensures Seen(t) == Seen(s)
  {
    hide FrameOk, FreeOk;
    forall k | k in t.pde ensures PdeOk(t, k) {
      assert PdeOk(s, k);
    }
    SamePtes(s, t, held);
  }

  lemma SamePtes(s: Space, t: Space, held: set<nat>)
    requires Inv(s, held) && t.pde == s.pde && t.pte == s.pte && t.owner.Keys == s.owner.Keys
    requires s.data.Keys == t.data.Keys
    requires forall g :: g in s.owner && s.owner[g] != FreePage && s.owner[g] != Held ==>
      t.owner[g] == s.owner[g] && t.data[g] == s.data[g]
    ensures (forall k :: k in t.pte ==> PteOk(t, k)) && Seen(t) == Seen(s)
  {
    hide FrameOk, FreeOk, PdeOk;
    forall k | k in t.pte ensures PteOk(t, k) && t.data[s.pte[k]] == s.data[s.pte[k]] {
      assert PteOk(s, k);
    }
  }

  lemma PoppedInv(s: Space, held: set<nat>)
    requires Inv(s, held) && s.freelist != []
    ensures s.freelist[0] !in held && s.freelist[0] in s.owner && s.owner[s.freelist[0]] == FreePage
    ensures Inv(Popped(s), held + {s.freelist[0]}) && Seen(Popped(s)) == Seen(s)
  {
    var f, t := s.freelist[0], Popped(s);
    assert FrameOk(s, held, f);
    forall g | g in t.owner ensures FrameOk(t, held + {f}, g) {
      assert FrameOk(s, held, g);
      if g != f && g in s.freelist {
        var i :| 0 <= i < |s.freelist| && s.freelist[i] == g;
        assert t.freelist[i - 1] == g;
      }
    }
    LinksKept(s, t, held);
  }

  lemma PushedInv(s: Space, held: set<nat>, f: nat, junk: Page)
    requires Inv(s, held) && f in held
    ensures Inv(Pushed(s, f, junk), held - {f}) && Seen(Pushed(s, f, junk)) == Seen(s)
  {
    var t := Pushed(s, f, junk);
    assert FrameOk(s, held, f);
    forall g | g in t.owner ensures FrameOk(t, held - {f}, g) {
      assert FrameOk(s, held, g);
    }
    LinksKept(s, t, held);
  }

  lemma WithDirInv(s: Space, held: set<nat>, f: nat)
    requires Inv(s, held) && f in held
    ensures Inv(WithDir(s, f), held - {f}) && f !in s.dirs && Seen(WithDir(s, f)) == Seen(s)
  {
    var t := WithDir(s, f);
    assert FrameOk(s, held, f);
    forall g | g in t.owner ensures FrameOk(t, held - {f}, g) {
      assert FrameOk(s, held, g);
    }
    LinksKept(s, t, held);
  }

  lemma WithTableInv(s: Space, held: set<nat>, k: Slot, f: nat)
    requires Inv(s, held) && f in held && k !in s.pde && k.root in s.dirs && k.index < NPDENTRIES
    ensures Inv(WithTable(s, k, f), held - {f}) && Seen(WithTable(s, k, f)) == Seen(s)
  {
    var t := WithTable(s, k, f);
    assert FrameOk(s, held, f);
    forall g | g in t.owner ensures FrameOk(t, held - {f}, g) {
      assert FrameOk(s, held, g);
    }
    forall l | l in t.pde ensures PdeOk(t, l) {
      assert l != k ==> PdeOk(s, l);
    }
    forall l | l in t.pte ensures PteOk(t, l) {
      assert PteOk(s, l);
    }
  }

  lemma WithPageInv(s: Space, held: set<nat>, k: Key, f: nat)
    requires Inv(s, held) && f in held && k !in s.pte && Slot(k.pid, Pdx(k.vpn)) in s.pde && k.vpn < USERPAGES
    ensures Inv(WithPage(s, k, f), held - {f}) && f in s.data && Seen(WithPage(s, k, f)) == Seen(s)[k := s.data[f]]
  {
    hide FrameOk, PdeOk, PteOk, Seen;
    WithPageFrames(s, held, k, f);
    WithPageLinks(s, held, k, f);
    SeenMore(s, k, f);
  }

  lemma WithPageFrames(s: Space, held: set<nat>, k: Key, f: nat)
    requires Inv(s, held) && f in held && k !in s.pte
    ensures f in s.owner && s.owner[f] == Held && f !in s.freelist
    ensures forall g {:trigger FrameOk(WithPage(s, k, f), held - {f}, g)} :: g in s.owner ==>
      FrameOk(WithPage(s, k, f), held - {f}, g)
  {
    hide PdeOk, PteOk, Seen;
    assert FrameOk(s, held, f);
    forall g | g in s.owner ensures FrameOk(WithPage(s, k, f), held - {f}, g) {
      assert FrameOk(s, held, g);
    }
  }

  lemma WithPageLinks(s: Space, held: set<nat>, k: Key, f: nat)
    requires Inv(s, held) && f in s.owner && s.owner[f] == Held && Slot(k.pid, Pdx(k.vpn)) in s.pde && k.vpn < USERPAGES
    ensures forall l :: l in s.pde ==> PdeOk(WithPage(s, k, f), l)
    ensures forall l :: l in WithPage(s, k, f).pte ==> PteOk(WithPage(s, k, f), l)
  {
    hide FrameOk, Seen, FreeOk;
    var t := WithPage(s, k, f);
    forall l | l in t.pde ensures PdeOk(t, l) {
      assert PdeOk(s, l);
    }
    forall l | l in t.pte ensures PteOk(t, l) {
      assert l != k ==> PteOk(s, l);
    }
  }

  lemma SeenMore(s: Space, k: Key, f: nat)
    requires k !in s.pte && f in s.data
    ensures Seen(WithPage(s, k, f)) == Seen(s)[k := s.data[f]]
  {
  }

  lemma SeenLess(s: Space, k: Key)
    requires k in s.pte
    ensures Seen(WithoutPage(s, k)) == Seen(s) - {k}
  {
  }

  lemma WithDataInv(s: Space, held: set<nat>, f: nat, page: Page)
    requires Inv(s, held) && f in held
    ensures Inv(WithData(s, f, page), held) && Seen(WithData(s, f, page)) == Seen(s)
  {
    var t := WithData(s, f, page);
    forall g | g in t.owner ensures FrameOk(t, held, g) {
      assert FrameOk(s, held, g);
    }
    assert FrameOk(s, held, f);
    LinksKept(s, t, held);
  }

  lemma WithoutPageInv(s: Space, held: set<nat>, k: Key)
    requires Inv(s, held) && k in s.pte
    ensures s.pte[k] in s.owner && s.owner[s.pte[k]] == UserOf(k.pid, k.vpn) && s.pte[k] !in held
    ensures Inv(WithoutPage(s, k), held + {s.pte[k]}) && Seen(WithoutPage(s, k)) == Seen(s) - {k}
  {
    var t, f := WithoutPage(s, k), s.pte[k];
    assert PteOk(s, k) && FrameOk(s, held, f);
    forall g | g in t.owner ensures FrameOk(t, held + {f}, g) {
      assert FrameOk(s, held, g);
    }
    hide FrameOk, Seen;
    forall l | l in t.pde ensures PdeOk(t, l) {
      assert PdeOk(s, l);
    }
    forall l | l in t.pte ensures PteOk(t, l) {
      assert PteOk(s, l);
    }
    SeenLess(s, k);
  }

  lemma WithoutTableInv(s: Space, held: set<nat>, k: Slot)
    requires Inv(s, held) && k in s.pde && forall l :: l in s.pte ==> l.pid != k.root
    ensures s.pde[k] in s.owner && s.owner[s.pde[k]] == TableOf(k.root, k.index) && s.pde[k] !in held
    ensures Inv(WithoutTable(s, k), held + {s.pde[k]}) && Seen(WithoutTable(s, k)) == Seen(s)
  {
    var t, f := WithoutTable(s, k), s.pde[k];
    assert PdeOk(s, k) && FrameOk(s, held, f);
    forall g | g in t.owner ensures FrameOk(t, held + {f}, g) {
      assert FrameOk(s, held, g);
    }
    forall l | l in t.pde ensures PdeOk(t, l) {
      assert PdeOk(s, l);
    }
    forall l | l in t.pte ensures PteOk(t, l) {
      assert PteOk(s, l);
    }
  }

  lemma WithoutDirInv(s: Space, held: set<nat>, r: nat)
    requires Inv(s, held) && r in s.dirs && forall l :: l in s.pde ==> l.root != r
    ensures r in s.owner && s.owner[r] == Directory && r !in held
    ensures Inv(WithoutDir(s, r), held + {r}) && Seen(WithoutDir(s, r)) == Seen(s)
  {
    var t := WithoutDir(s, r);
    assert FrameOk(s, held, r);
    forall g | g in t.owner ensures FrameOk(t, held + {r}, g) {
      assert FrameOk(s, held, g);
    }
    forall l | l in t.pde ensures PdeOk(t, l) {
      assert PdeOk(s, l);
    }
    forall l | l in t.pte ensures PteOk(t, l) {
      assert PteOk(s, l);
    }
  }
}
