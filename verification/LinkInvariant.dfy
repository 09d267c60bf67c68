/** Every step keeps the link counts exact and the directories well formed, over any run. */
module LinkInvariant {
  import opened LinkSpec

  // ---------- What stays when links do not change ----------

  /** The two trees have the same linked directories with the same entries, and the same kinds of inodes. */
  predicate SameTree(a: seq<Node>, b: seq<Node>) {
    && |a| == |b|
    && forall i {:trigger a[i]} {:trigger b[i]} :: 0 <= i < |a| ==>
      && (a[i].kind.Dir? <==> b[i].kind.Dir?) && (Linked(a[i]) <==> Linked(b[i]))
      && (Linked(a[i]) ==> a[i].entries == b[i].entries)
  }

  lemma {:induction false} SameTotal(a: seq<Node>, b: seq<Node>, i: nat)
    requires |a| == |b| && forall d {:trigger a[d]} :: 0 <= d < |a| ==> Contribution(a[d], i) == Contribution(b[d], i)
    ensures Total(a, i) == Total(b, i)
  {
    if a != [] {
      assert forall d :: 0 <= d < |a[1..]| ==> a[1..][d] == a[d + 1] && b[1..][d] == b[d + 1];
      SameTotal(a[1..], b[1..], i);
    }
  }

  lemma SameTreeTotal(a: seq<Node>, b: seq<Node>, i: nat)
    requires SameTree(a, b)
    ensures Total(a, i) == Total(b, i)
  {
    forall d | 0 <= d < |a| ensures Contribution(a[d], i) == Contribution(b[d], i) {
    }
    SameTotal(a, b, i);
  }

  lemma SameTreeDirs(a: seq<Node>, b: seq<Node>)
    requires SameTree(a, b) && DirsOk(a)
    ensures DirsOk(b)
  {
    forall d | 0 <= d < |b| && Linked(b[d]) ensures DirOk(b, d) {
      assert DirOk(a, d) && a[d].entries == b[d].entries;
      SameTreeChildren(a, b, d);
      if d != ROOT {
        assert HasEntry(a, a[d].entries[1].inum, d);
      }
    }
  }

  lemma SameTreeChildren(a: seq<Node>, b: seq<Node>, d: nat)
    requires SameTree(a, b) && d < |a| && Linked(a[d]) && Children(a, d)
    ensures Children(b, d)
  {
    var es := b[d].entries;
    assert es == a[d].entries;
    forall k | 2 <= k < |es| && es[k].inum != 0 ensures ChildOk(b, d, es[k].inum) {
      assert ChildOk(a, d, a[d].entries[k].inum);
    }
  }

  // ---------- dirlink ----------

  lemma WithEntryAt(es: seq<Entry>, e: Entry)
    requires |es| >= 2 && es[0].inum != 0 && es[1].inum != 0
    ensures var r := WithEntry(es, e);
            var k := FreeSlot(es);
            && 2 <= k < |r| && r[k] == e && |es| <= |r|
            && (forall j :: 0 <= j < |r| && j != k ==> j < |es| && r[j] == es[j])
            && (k < |es| ==> es[k].inum == 0)
  {
  }

  lemma WithEntryCount(es: seq<Entry>, e: Entry, i: nat)
    requires i != 0
    ensures CountIn(WithEntry(es, e), i) == CountIn(es, i) + (if e.inum == i && e.name != "." then 1 else 0)
  {
    var k := FreeSlot(es);
    if k < |es| {
      CountSet(es, k, e, i);
    } else {
      CountAppend(es, e, i);
    }
  }

  /** Adding an entry with a new name to a directory keeps it well formed, if the entry may be there. */
  lemma WithEntryUnique(es: seq<Entry>, e: Entry)
    requires UniqueNames(es) && Absent(es, e.name) && |es| >= 2 && es[0].inum != 0 && es[1].inum != 0
    ensures UniqueNames(WithEntry(es, e))
  {
    WithEntryAt(es, e);
  }

  // ---------- link ----------

  lemma RaiseKept(s: State, i: nat, delta: int, pending: multiset<nat>)
    requires Sound(s) && 0 < i < |s.nodes| && !s.nodes[i].kind.Free? && !s.nodes[i].kind.Dir?
    requires s.pending[i] + delta >= 0 && pending == s.pending[i := s.pending[i] + delta]
    ensures Sound(State(s.nodes[i := Raised(s.nodes[i], delta)], pending))
  {
    var t := s.nodes[i := Raised(s.nodes[i], delta)];
    assert SameTree(s.nodes, t);
    SameTreeDirs(s.nodes, t);
    forall j | 0 < j < |t| ensures t[j].nlink == Total(t, j) + pending[j] {
      SameTreeTotal(s.nodes, t, j);
      assert s.nodes[j].nlink == Total(s.nodes, j) + s.pending[j];
    }
  }

  /** Node d gets the entry e: counts. */
  lemma EntryCounts(nodes: seq<Node>, d: nat, x: Node, e: Entry, j: nat)
    requires d < |nodes| && Linked(nodes[d]) && Linked(x) && x.entries == WithEntry(nodes[d].entries, e) && j != 0
    ensures Total(nodes[d := x], j) == Total(nodes, j) + (if e.inum == j && e.name != "." then 1 else 0)
  {
    WithEntryCount(nodes[d].entries, e, j);
    TotalSet(nodes, d, x, j);
  }

  lemma LinkEndKept(s: State, i: nat, d: nat, name: string)
    requires Sound(s) && Enabled(s, LinkEnd(i, d, name))
    ensures Sound(Next(s, LinkEnd(i, d, name)))
  {
    var e := Entry(i, name);
    var x := s.nodes[d].(entries := WithEntry(s.nodes[d].entries, e));
    var t := s.nodes[d := x];
    var pending := s.pending - multiset{i};
    assert DirOk(s.nodes, d);
    assert s.nodes[d].entries[0].name == ".";
    assert s.pending[i] > 0;
    forall j | 0 < j < |t| ensures t[j].nlink == Total(t, j) + pending[j] {
      EntryCounts(s.nodes, d, x, e, j);
      assert s.nodes[j].nlink == Total(s.nodes, j) + s.pending[j];
    }
    EntryDirs(s.nodes, d, x, e);
    assert KindsOk(t, pending);
  }

  /** Linked directory d gets an entry for a node that is not a directory. */
  lemma EntryDirs(nodes: seq<Node>, d: nat, x: Node, e: Entry)
    requires DirsOk(nodes) && d < |nodes| && Linked(nodes[d]) && Linked(x) && nodes[0].kind.Free?
    requires x.entries == WithEntry(nodes[d].entries, e) && Absent(nodes[d].entries, e.name)
    requires 0 < e.inum < |nodes| && !nodes[e.inum].kind.Dir? && e.inum != ROOT
    ensures DirsOk(nodes[d := x])
  {
    var t := nodes[d := x];
    assert DirOk(nodes, d);
    WithEntryAt(nodes[d].entries, e);
    WithEntryUnique(nodes[d].entries, e);
    forall c | 0 <= c < |t| && Linked(t[c]) ensures DirOk(t, c) {
      assert DirOk(nodes, c);
      EntryChildren(nodes, d, x, e, c);
      if c != ROOT {
        EntryParent(nodes, d, x, e, nodes[c].entries[1].inum, c);
      }
    }
  }

  lemma EntryChildren(nodes: seq<Node>, d: nat, x: Node, e: Entry, c: nat)
    requires DirsOk(nodes) && 0 < d < |nodes| && Linked(nodes[d]) && Linked(x)
    requires x.entries == WithEntry(nodes[d].entries, e)
    requires 0 < e.inum < |nodes| && !nodes[e.inum].kind.Dir? && e.inum != ROOT
    requires c < |nodes| && Linked(nodes[c])
    ensures Children(nodes[d := x], c)
  {
    var t := nodes[d := x];
    var es := t[c].entries;
    assert DirOk(nodes, c) && DirOk(nodes, d);
    WithEntryAt(nodes[d].entries, e);
    forall k | 2 <= k < |es| && es[k].inum != 0 ensures ChildOk(t, c, es[k].inum) {
      if c != d || k != FreeSlot(nodes[d].entries) {
        assert es[k] == nodes[c].entries[k] && ChildOk(nodes, c, nodes[c].entries[k].inum);
      }
    }
  }

  lemma EntryParent(nodes: seq<Node>, d: nat, x: Node, e: Entry, p: nat, c: nat)
    requires 0 < d < |nodes| && Linked(nodes[d]) && Linked(x) && HasEntry(nodes, p, c) && c != 0
    requires x.entries == WithEntry(nodes[d].entries, e) && DirOk(nodes, d)
    ensures HasEntry(nodes[d := x], p, c)
  {
    WithEntryAt(nodes[d].entries, e);
    var k :| 2 <= k < |nodes[p].entries| && nodes[p].entries[k].inum == c;
    assert nodes[d := x][p].entries[k].inum == c;
  }

  // ---------- Freeing an inode ----------

  lemma ReleaseKept(s: State, i: nat)
    requires Sound(s) && Enabled(s, Release(i))
    ensures Sound(Next(s, Release(i)))
  {
    var t := s.nodes[i := Node(Free, 0, [])];
    assert s.nodes[i].nlink == Total(s.nodes, i) + s.pending[i];
    ReleaseDirs(s.nodes, i);
    hide DirsOk, DirOk;
    forall j | 0 < j < |t| ensures t[j].nlink == Total(t, j) + s.pending[j] {
      TotalSet(s.nodes, i, t[i], j);
      assert s.nodes[j].nlink == Total(s.nodes, j) + s.pending[j];
    }
  }

  lemma ReleaseDirs(nodes: seq<Node>, i: nat)
    requires DirsOk(nodes) && i < |nodes| && nodes[i].nlink == 0
    ensures DirsOk(nodes[i := Node(Free, 0, [])])
  {
    var t := nodes[i := Node(Free, 0, [])];
    forall d | 0 <= d < |t| && Linked(t[d]) ensures DirOk(t, d) {
      assert DirOk(nodes, d);
      var es := t[d].entries;
      forall k | 2 <= k < |es| && es[k].inum != 0 ensures ChildOk(t, d, es[k].inum) {
        assert ChildOk(nodes, d, nodes[d].entries[k].inum);
      }
      assert Children(t, d);
      if d != ROOT {
        assert HasEntry(nodes, es[1].inum, d);
      }
    }
  }

  // ---------- create ----------

  /** No entry of a linked directory names an inode with count zero, "." apart. */
  lemma Unnamed(nodes: seq<Node>, i: nat, d: nat, k: nat)
    requires DirsOk(nodes) && 0 < i < |nodes| && Total(nodes, i) == 0
    requires 0 < d < |nodes| && Linked(nodes[d]) && 1 <= k < |nodes[d].entries|
    ensures nodes[d].entries[k].inum != i
  {
    assert DirOk(nodes, d);
    if nodes[d].entries[k].inum == i {
      assert nodes[d].entries[0].name == ".";
      Counted(nodes, d, k, i);
    }
  }

  lemma CreateCounts(nodes: seq<Node>, d: nat, name: string, kind: Kind, i: nat, j: nat)
    requires d < |nodes| && 0 < i < |nodes| && i != d && Linked(nodes[d]) && !Linked(nodes[i]) && j != 0
    requires name != "."
    ensures Total(Created(nodes, d, name, kind, i), j) ==
            Total(nodes, j) + (if kind.Dir? && j == d then 1 else 0) + (if j == i then 1 else 0)
  {
    var made := nodes[i := Fresh(kind, i, d)];
    TotalSet(nodes, i, made[i], j);
    FreshCount(kind, i, d, j);
    EntryCounts(made, d, Created(nodes, d, name, kind, i)[d], Entry(i, name), j);
  }

  lemma FreshCount(kind: Kind, i: nat, d: nat, j: nat)
    ensures Contribution(Fresh(kind, i, d), j) == (if kind.Dir? && j == d then 1 else 0)
  {
    if kind.Dir? {
      var es := Fresh(kind, i, d).entries;
      assert es[1..] == [Entry(d, "..")] && es[1..][1..] == [];
      assert |".."| == 2 && CountIn(es[1..], j) == if j == d then 1 else 0;
    }
  }

  lemma CreateDirs(nodes: seq<Node>, d: nat, name: string, kind: Kind, i: nat, c: nat)
    requires DirsOk(nodes) && 0 < d < |nodes| && Linked(nodes[d]) && Absent(nodes[d].entries, name)
    requires 0 < i < |nodes| && !Linked(nodes[i]) && i != ROOT && Total(nodes, i) == 0
    requires 0 < c < |nodes| && Linked(nodes[c])
    ensures DirOk(Created(nodes, d, name, kind, i), c)
  {
    hide Created, WithEntry, Total, Children, UniqueNames, HasEntry, Absent;
    assert DirOk(nodes, c) && DirOk(nodes, d);
    hide DirsOk;
    CreatedFront(nodes, d, name, kind, i, c);
    CreateChildren(nodes, d, name, kind, i, c);
    if c != ROOT {
      CreateParent(nodes, d, name, kind, i, nodes[c].entries[1].inum, c);
    }
  }

  lemma CreatedFront(nodes: seq<Node>, d: nat, name: string, kind: Kind, i: nat, c: nat)
    requires 0 < d < |nodes| && Linked(nodes[d]) && DirOk(nodes, d) && Absent(nodes[d].entries, name)
    requires i < |nodes| && !Linked(nodes[i]) && c < |nodes| && Linked(nodes[c]) && DirOk(nodes, c)
    ensures var es := Created(nodes, d, name, kind, i)[c].entries;
      |es| >= 2 && es[0] == nodes[c].entries[0] && es[1] == nodes[c].entries[1] && UniqueNames(es)
  {
    hide Total, Children, HasEntry;
    WithEntryAt(nodes[d].entries, Entry(i, name));
    WithEntryUnique(nodes[d].entries, Entry(i, name));
    hide WithEntry, UniqueNames, Absent;
  }

  lemma CreateParent(nodes: seq<Node>, d: nat, name: string, kind: Kind, i: nat, p: nat, c: nat)
    requires 0 < d < |nodes| && Linked(nodes[d]) && DirOk(nodes, d) && i < |nodes| && !Linked(nodes[i])
    requires HasEntry(nodes, p, c) && c != 0
    ensures HasEntry(Created(nodes, d, name, kind, i), p, c)
  {
    WithEntryAt(nodes[d].entries, Entry(i, name));
    var k :| 2 <= k < |nodes[p].entries| && nodes[p].entries[k].inum == c;
    assert Created(nodes, d, name, kind, i)[p].entries[k].inum == c;
  }

  lemma CreateChildren(nodes: seq<Node>, d: nat, name: string, kind: Kind, i: nat, c: nat)
    requires DirsOk(nodes) && 0 < d < |nodes| && Linked(nodes[d]) && Absent(nodes[d].entries, name)
    requires 0 < i < |nodes| && !Linked(nodes[i]) && i != ROOT && Total(nodes, i) == 0
    requires 0 < c < |nodes| && Linked(nodes[c])
    ensures Children(Created(nodes, d, name, kind, i), c)
  {
    assert DirOk(nodes, c) && DirOk(nodes, d);
    hide DirOk, DirsOk, Total, WithEntry, Created;
    var t := Created(nodes, d, name, kind, i);
    var es := t[c].entries;
    var slot := FreeSlot(nodes[d].entries);
    CreatedEntries(nodes, d, name, kind, i, c);
    forall k | 2 <= k < |es| && es[k].inum != 0
      ensures ChildOk(t, c, es[k].inum) && (es[k].inum == i <==> c == d && k == slot)
    {
      if c == d && k == slot {
        CreatedChild(nodes, d, name, kind, i);
      } else {
        Unnamed(nodes, i, c, k);
        CreatedKeepsChild(nodes, d, name, kind, i, c, es[k].inum);
      }
    }
  }

  /** The entries of a linked directory after create: the same, and in d the new one in the free slot. */
  lemma CreatedEntries(nodes: seq<Node>, d: nat, name: string, kind: Kind, i: nat, c: nat)
    requires 0 < d < |nodes| && Linked(nodes[d]) && DirOk(nodes, d) && i < |nodes| && !Linked(nodes[i])
    requires c < |nodes| && Linked(nodes[c])
    ensures var es, was := Created(nodes, d, name, kind, i)[c].entries, nodes[c].entries;
      forall k :: 2 <= k < |es| ==>
        if c == d && k == FreeSlot(nodes[d].entries) then es[k].inum == i else k < |was| && es[k] == was[k]
  {
    WithEntryAt(nodes[d].entries, Entry(i, name));
  }

  lemma CreatedChild(nodes: seq<Node>, d: nat, name: string, kind: Kind, i: nat)
    requires d < |nodes| && 0 < i < |nodes| && i != d && i != ROOT
    ensures ChildOk(Created(nodes, d, name, kind, i), d, i)
  {
    hide WithEntry;
  }

  /** What was a fit child of c still is, unless it is the new inode. */
  lemma CreatedKeepsChild(nodes: seq<Node>, d: nat, name: string, kind: Kind, i: nat, c: nat, x: nat)
    requires 0 < d < |nodes| && Linked(nodes[d]) && DirOk(nodes, d) && i < |nodes| && i != x && ChildOk(nodes, c, x)
    ensures ChildOk(Created(nodes, d, name, kind, i), c, x)
  {
    WithEntryAt(nodes[d].entries, Entry(i, name));
    hide WithEntry;
  }

  lemma CreateAllDirs(nodes: seq<Node>, d: nat, name: string, kind: Kind, i: nat)
    requires DirsOk(nodes) && 0 < d < |nodes| && Linked(nodes[d]) && Absent(nodes[d].entries, name)
    requires 0 < i < |nodes| && !Linked(nodes[i]) && i != ROOT && Total(nodes, i) == 0 && nodes[0].kind.Free?
    ensures DirsOk(Created(nodes, d, name, kind, i))
  {
    assert DirOk(nodes, d);
    hide DirOk, Total;
    var t := Created(nodes, d, name, kind, i);
    forall c | 0 <= c < |t| && Linked(t[c]) ensures DirOk(t, c) {
      if c == i {
        FreshDir(nodes, d, name, i);
      } else {
        CreateDirs(nodes, d, name, kind, i, c);
      }
    }
  }

  lemma CreateAllCounts(s: State, d: nat, name: string, kind: Kind, i: nat)
    requires CountsOk(s.nodes, s.pending) && d < |s.nodes| && 0 < i < |s.nodes| && i != d
    requires Linked(s.nodes[d]) && !Linked(s.nodes[i]) && s.nodes[i].nlink == 0 && name != "."
    ensures CountsOk(Created(s.nodes, d, name, kind, i), s.pending)
  {
    hide Total, WithEntry;
    var t := Created(s.nodes, d, name, kind, i);
    assert s.nodes[i].nlink == Total(s.nodes, i) + s.pending[i];
    forall j | 0 < j < |t| ensures t[j].nlink == Total(t, j) + s.pending[j] {
      CreateCounts(s.nodes, d, name, kind, i, j);
      assert s.nodes[j].nlink == Total(s.nodes, j) + s.pending[j];
    }
  }

  lemma CreateKept(s: State, d: nat, name: string, kind: Kind, i: nat)
    requires Sound(s) && Enabled(s, Create(d, name, kind, i))
    ensures Sound(Next(s, Create(d, name, kind, i)))
  {
    assert DirOk(s.nodes, d) && s.nodes[d].entries[0].name == ".";
    assert s.nodes[i].nlink == Total(s.nodes, i) + s.pending[i];
    hide DirOk, Total;
    CreateAllDirs(s.nodes, d, name, kind, i);
    CreateAllCounts(s, d, name, kind, i);
  }

  lemma FreshDir(nodes: seq<Node>, d: nat, name: string, i: nat)
    requires 0 < d < |nodes| && Linked(nodes[d]) && DirOk(nodes, d)
    requires 0 < i < |nodes| && i != ROOT && i != d
    ensures DirOk(Created(nodes, d, name, Dir, i), i)
  {
    var t := Created(nodes, d, name, Dir, i);
    WithEntryAt(nodes[d].entries, Entry(i, name));
    assert t[d].entries[FreeSlot(nodes[d].entries)].inum == i;
  }

  // ---------- unlink ----------

  /** Slot k of linked directory d names inode i, and is not one of the first two. */
  predicate Names(nodes: seq<Node>, d: nat, k: nat, i: nat) {
    && 0 < d < |nodes| && Linked(nodes[d]) && 2 <= k < |nodes[d].entries| && nodes[d].entries[k].inum == i
    && 0 < i < |nodes| && nodes[d].entries[k].name != "."
  }

  /** The nodes with only the slot cleared. */
  function Cleared(nodes: seq<Node>, d: nat, k: nat): (r: seq<Node>)
    requires d < |nodes| && k < |nodes[d].entries|
    ensures |r| == |nodes|
  {
    nodes[d := nodes[d].(entries := nodes[d].entries[k := HOLE])]
  }

  lemma ClearedTotal(nodes: seq<Node>, d: nat, k: nat, i: nat, j: nat)
    requires Names(nodes, d, k, i) && j != 0
    ensures Total(Cleared(nodes, d, k), j) == Total(nodes, j) - if j == i then 1 else 0
  {
    CountSet(nodes[d].entries, k, HOLE, j);
    TotalSet(nodes, d, Cleared(nodes, d, k)[d], j);
  }

  lemma ClearedChildren(nodes: seq<Node>, d: nat, k: nat, c: nat)
    requires d < |nodes| && 2 <= k < |nodes[d].entries| && c < |nodes| && Children(nodes, c)
    ensures Children(Cleared(nodes, d, k), c)
  {
    var t := Cleared(nodes, d, k);
    var es := t[c].entries;
    forall m | 2 <= m < |es| && es[m].inum != 0 ensures ChildOk(t, c, es[m].inum) {
      assert es[m] == nodes[c].entries[m] && ChildOk(nodes, c, nodes[c].entries[m].inum);
    }
  }

  /** An entry other than the cleared one is still there. */
  lemma ClearedHasEntry(nodes: seq<Node>, d: nat, k: nat, p: nat, c: nat)
    requires d < |nodes| && k < |nodes[d].entries| && HasEntry(nodes, p, c) && nodes[d].entries[k].inum != c
    ensures HasEntry(Cleared(nodes, d, k), p, c)
  {
    var m :| 2 <= m < |nodes[p].entries| && nodes[p].entries[m].inum == c;
    assert Cleared(nodes, d, k)[p].entries[m].inum == c;
  }

  /** After clearing, every linked directory other than the one named is well formed. */
  lemma ClearedDirs(nodes: seq<Node>, d: nat, k: nat, i: nat, c: nat)
    requires DirsOk(nodes) && Names(nodes, d, k, i) && 0 < c < |nodes| && c != i && Linked(nodes[c])
    ensures DirOk(Cleared(nodes, d, k), c)
  {
    assert DirOk(nodes, c);
    ClearedChildren(nodes, d, k, c);
    hide Children;
    if c != ROOT {
      ClearedHasEntry(nodes, d, k, nodes[c].entries[1].inum, c);
    }
    hide HasEntry;
  }

  lemma UnlinkFileKept(s: State, d: nat, k: nat)
    requires Sound(s) && Enabled(s, Unlink(d, k)) && !s.nodes[s.nodes[d].entries[k].inum].kind.Dir?
    ensures Sound(Next(s, Unlink(d, k)))
  {
    hide Total, DirOk;
    var i := s.nodes[d].entries[k].inum;
    SlotNames(s.nodes, d, k);
    var a := Cleared(s.nodes, d, k);
    forall c | 0 <= c < |a| && Linked(a[c]) ensures DirOk(a, c) {
      ClearedDirs(s.nodes, d, k, i, c);
    }
    Counted(s.nodes, d, k, i);
    var t := Unlinked(s.nodes, d, k);
    assert t == a[i := Raised(a[i], -1)];
    assert SameTree(a, t);
    SameTreeDirs(a, t);
    forall j | 0 < j < |t| ensures t[j].nlink == Total(t, j) + s.pending[j] {
      SameTreeTotal(a, t, j);
      ClearedTotal(s.nodes, d, k, i, j);
      assert s.nodes[j].nlink == Total(s.nodes, j) + s.pending[j];
    }
  }

  lemma SlotNames(nodes: seq<Node>, d: nat, k: nat)
    requires DirsOk(nodes) && 0 < d < |nodes| && Linked(nodes[d]) && k < |nodes[d].entries|
    requires 0 < nodes[d].entries[k].inum < |nodes| && nodes[d].entries[k].name != "."
    requires nodes[d].entries[k].name != ".."
    ensures Names(nodes, d, k, nodes[d].entries[k].inum) && Children(nodes, d)
  {
    assert DirOk(nodes, d);
  }

  /** Directory i, named by slot k of d, is empty but for its first two slots. */
  predicate Removable(nodes: seq<Node>, d: nat, k: nat, i: nat) {
    && DirsOk(nodes) && ROOT < |nodes| && nodes[0].kind.Free?
    && Names(nodes, d, k, i) && nodes[i].kind.Dir? && EmptyDir(nodes[i].entries)
  }

  lemma RemovableFacts(nodes: seq<Node>, d: nat, k: nat, i: nat)
    requires Removable(nodes, d, k, i)
    ensures Linked(nodes[i]) && i != d && i != ROOT && DirOk(nodes, i) && nodes[i].entries[1].inum == d
  {
    assert DirOk(nodes, d);
    assert ChildOk(nodes, d, nodes[d].entries[k].inum);
    assert DirOk(nodes, i);
  }

  /** Nothing in an empty directory names a linked directory as its child. */
  lemma NotInEmpty(nodes: seq<Node>, i: nat, p: nat, c: nat)
    requires i < |nodes| && EmptyDir(nodes[i].entries) && HasEntry(nodes, p, c) && c != 0
    ensures p != i
  {
  }

  /** No other entry but "." names an empty directory. */
  lemma OnlyEntry(nodes: seq<Node>, d: nat, k: nat, i: nat, c: nat, m: nat)
    requires Removable(nodes, d, k, i) && 0 < c < |nodes| && Linked(nodes[c]) && 1 <= m < |nodes[c].entries|
    requires nodes[c].entries[m].inum == i
    ensures c == d && m == k
  {
    RemovableFacts(nodes, d, k, i);
    assert DirOk(nodes, c);
    if m == 1 {
      NotInEmpty(nodes, i, i, c);
    } else {
      assert ChildOk(nodes, c, nodes[c].entries[m].inum);
    }
  }

  lemma ClearedUnnamed(nodes: seq<Node>, d: nat, k: nat, i: nat)
    requires Removable(nodes, d, k, i)
    ensures Total(Cleared(nodes, d, k), i) == 0
  {
    var a := Cleared(nodes, d, k);
    forall c | 0 <= c < |a| ensures Contribution(a[c], i) == 0 {
      if Linked(a[c]) {
        assert DirOk(nodes, c);
        var es := a[c].entries;
        forall m | 0 <= m < |es| && es[m].inum == i ensures es[m].name == "." {
          if m > 0 {
            OnlyEntry(nodes, d, k, i, c, m);
          }
        }
        CountZero(es, i);
      }
    }
    TotalZero(a, i);
  }

  /** An empty directory's own entries count once, for the directory that holds it. */
  lemma EmptyContribution(nodes: seq<Node>, d: nat, k: nat, i: nat, j: nat)
    requires Removable(nodes, d, k, i) && j != 0
    ensures Contribution(nodes[i], j) == if j == d then 1 else 0
  {
    RemovableFacts(nodes, d, k, i);
    var es := nodes[i].entries;
    var rest := es[2..];
    assert forall m :: 0 <= m < |rest| ==> rest[m] == es[m + 2];
    CountZero(rest, j);
    assert es[1..][1..] == rest;
    assert |".."| == 2 && CountIn(es[1..], j) == if j == d then 1 else 0;
  }

  /** The slot cleared and the empty directory's last link gone. */
  function Removed(nodes: seq<Node>, d: nat, k: nat, i: nat): (r: seq<Node>)
    requires d < |nodes| && k < |nodes[d].entries| && i < |nodes|
    ensures |r| == |nodes|
  {
    var a := Cleared(nodes, d, k);
    a[i := Raised(a[i], -1)]
  }

  lemma RemovedTotal(nodes: seq<Node>, d: nat, k: nat, i: nat, j: nat)
    requires Removable(nodes, d, k, i) && nodes[i].nlink == 1 && j != 0
    ensures Total(Removed(nodes, d, k, i), j) == Total(nodes, j) - (if j == i then 1 else 0) - (if j == d then 1 else 0)
  {
    RemovableFacts(nodes, d, k, i);
    ClearedTotal(nodes, d, k, i, j);
    EmptyContribution(nodes, d, k, i, j);
    var a := Cleared(nodes, d, k);
    TotalSet(a, i, Raised(a[i], -1), j);
  }

  /** Removing an empty directory leaves every other directory well formed. */
  lemma RemovedDirs(nodes: seq<Node>, d: nat, k: nat, i: nat, c: nat)
    requires Removable(nodes, d, k, i) && nodes[i].nlink == 1
    requires 0 < c < |nodes| && c != i && Linked(nodes[c])
    ensures DirOk(Removed(nodes, d, k, i), c)
  {
    var a := Cleared(nodes, d, k);
    var b := Removed(nodes, d, k, i);
    RemovableFacts(nodes, d, k, i);
    assert DirOk(nodes, c);
    ClearedDirs(nodes, d, k, i, c);
    var es := b[c].entries;
    forall m | 2 <= m < |es| && es[m].inum != 0 ensures ChildOk(b, c, es[m].inum) {
      assert ChildOk(a, c, a[c].entries[m].inum);
      assert ChildOk(nodes, c, nodes[c].entries[m].inum);
    }
    if c != ROOT {
      NotInEmpty(nodes, i, es[1].inum, c);
      assert HasEntry(a, es[1].inum, c);
    }
  }

  /** The directory that holds another one has a link of its own, from its parent or as the root. */
  lemma HolderCounted(nodes: seq<Node>, d: nat, k: nat, i: nat)
    requires Removable(nodes, d, k, i) && nodes[i].nlink == 1
    ensures Total(Removed(nodes, d, k, i), d) >= 1
  {
    var b := Removed(nodes, d, k, i);
    RemovableFacts(nodes, d, k, i);
    RemovedDirs(nodes, d, k, i, d);
    if d == ROOT {
      assert |".."| == 2;
      Counted(b, d, 1, d);
    } else {
      var p := b[d].entries[1].inum;
      var m :| 2 <= m < |b[p].entries| && b[p].entries[m].inum == d;
      RemovedDirs(nodes, d, k, i, p);
      assert b[p].entries[0].name == ".";
      Counted(b, p, m, d);
    }
  }

  lemma UnlinkDirCounts(s: State, d: nat, k: nat, i: nat)
    requires CountsOk(s.nodes, s.pending) && Removable(s.nodes, d, k, i) && i !in s.pending && d !in s.pending
    ensures s.nodes[i].nlink == 1 && s.nodes[d].nlink >= 2
    ensures CountsOk(Unlinked(s.nodes, d, k), s.pending)
  {
    RemovableFacts(s.nodes, d, k, i);
    ClearedTotal(s.nodes, d, k, i, i);
    ClearedUnnamed(s.nodes, d, k, i);
    assert s.nodes[i].nlink == Total(s.nodes, i) + s.pending[i] == 1;
    HolderCounted(s.nodes, d, k, i);
    RemovedTotal(s.nodes, d, k, i, d);
    assert s.nodes[d].nlink == Total(s.nodes, d) + s.pending[d];
    var b := Removed(s.nodes, d, k, i);
    var t := Unlinked(s.nodes, d, k);
    hide DirOk, DirsOk, Removable;
    assert t == b[d := Raised(b[d], -1)];
    assert SameTree(b, t);
    forall j | 0 < j < |t| ensures t[j].nlink == Total(t, j) + s.pending[j] {
      SameTreeTotal(b, t, j);
      RemovedTotal(s.nodes, d, k, i, j);
      assert s.nodes[j].nlink == Total(s.nodes, j) + s.pending[j];
    }
  }

  lemma UnlinkDirDirs(nodes: seq<Node>, d: nat, k: nat, i: nat)
    requires Removable(nodes, d, k, i) && nodes[i].nlink == 1 && nodes[d].nlink >= 2
    ensures DirsOk(Unlinked(nodes, d, k))
  {
    hide DirOk, EmptyDir;
    RemovableFacts(nodes, d, k, i);
    var b := Removed(nodes, d, k, i);
    var t := Unlinked(nodes, d, k);
    forall c | 0 <= c < |b| && Linked(b[c]) ensures DirOk(b, c) {
      RemovedDirs(nodes, d, k, i, c);
    }
    assert t == b[d := Raised(b[d], -1)];
    assert SameTree(b, t);
    SameTreeDirs(b, t);
  }

  lemma UnlinkDirKept(s: State, d: nat, k: nat)
    requires Sound(s) && Enabled(s, Unlink(d, k)) && s.nodes[s.nodes[d].entries[k].inum].kind.Dir?
    ensures Sound(Next(s, Unlink(d, k)))
  {
    var i := s.nodes[d].entries[k].inum;
    SlotNames(s.nodes, d, k);
    RemovableFacts(s.nodes, d, k, i);
    UnlinkDirCounts(s, d, k, i);
    UnlinkDirDirs(s.nodes, d, k, i);
    hide DirOk, DirsOk, CountsOk;
  }

  // ---------- Any run ----------

  /** In a directory that is no longer linked there is nothing to unlink. */
  lemma OrphanUnlinksNothing(s: State, d: nat, k: nat)
    requires Inv(s) && Possible(s, Unlink(d, k))
    ensures Linked(s.nodes[d])
  {
  }

  /** An entry made in a directory that is no longer linked makes a count wrong, or the directory ill formed. */
  lemma OrphanEntryBreaks(s: State, step: Step)
    requires Inv(s) && Possible(s, step) && !IntoLinked(s, step)
    ensures !Inv(Next(s, step))
  {
    match step
    case LinkEnd(i, d, name) => LinkEndBreaks(s, i, d, name);
    case Create(d, name, kind, i) => CreateBreaks(s, d, name, kind, i);
  }

  lemma LinkEndBreaks(s: State, i: nat, d: nat, name: string)
    requires Inv(s) && Possible(s, LinkEnd(i, d, name)) && !Linked(s.nodes[d])
    ensures !CountsOk(Next(s, LinkEnd(i, d, name)).nodes, Next(s, LinkEnd(i, d, name)).pending)
  {
    var t := Next(s, LinkEnd(i, d, name));
    PendingIsNode(s, i);
    TotalSet(s.nodes, d, t.nodes[d], i);
    assert s.nodes[i].nlink == Total(s.nodes, i) + s.pending[i];
    assert t.nodes[i].nlink != Total(t.nodes, i) + t.pending[i];
  }

  lemma CreateBreaks(s: State, d: nat, name: string, kind: Kind, i: nat)
    requires Inv(s) && Possible(s, Create(d, name, kind, i)) && !Linked(s.nodes[d])
    ensures !Inv(Next(s, Create(d, name, kind, i)))
  {
    var t := Next(s, Create(d, name, kind, i));
    var made := s.nodes[i := Fresh(kind, i, d)];
    assert s.nodes[i].nlink == Total(s.nodes, i) + s.pending[i];
    assert s.nodes[d].nlink == Total(s.nodes, d) + s.pending[d];
    if kind.Dir? {
      // the directory counts as linked again, but nothing names it
      if DirOk(t.nodes, d) {
        var p := t.nodes[d].entries[1].inum;
        var k :| 2 <= k < |t.nodes[p].entries| && t.nodes[p].entries[k].inum == d;
        CreatedNamesNot(s, d, name, i, p, k);
      }
    } else {
      TotalSet(s.nodes, i, made[i], i);
      TotalSet(made, d, t.nodes[d], i);
      assert t.nodes[i].nlink != Total(t.nodes, i) + t.pending[i];
    }
  }

  /** After a directory was made in an orphan, no entry but "." and the new ".." names the orphan. */
  lemma CreatedNamesNot(s: State, d: nat, name: string, i: nat, p: nat, k: nat)
    requires Inv(s) && Possible(s, Create(d, name, Dir, i)) && !Linked(s.nodes[d])
    requires p < |s.nodes| && Linked(Created(s.nodes, d, name, Dir, i)[p])
    requires 2 <= k < |Created(s.nodes, d, name, Dir, i)[p].entries|
    ensures Created(s.nodes, d, name, Dir, i)[p].entries[k].inum != d
  {
    assert Orphan(s.nodes, d, s.nodes[d]);
    assert s.nodes[d].nlink == Total(s.nodes, d) + s.pending[d];
    WithEntryAt(s.nodes[d].entries, Entry(i, name));
    if p != d && p != i {
      Unnamed(s.nodes, d, p, k);
    }
  }

  /** An unlinked directory that was linked before had only "." and ".." left. */
  lemma UnlinkLeavesOrphan(s: State, c: nat, k: nat, d: nat)
    requires Inv(s) && Enabled(s, Unlink(c, k)) && d < |s.nodes|
    requires Next(s, Unlink(c, k)).nodes[d].kind.Dir? && !Linked(Next(s, Unlink(c, k)).nodes[d])
    ensures Orphan(s.nodes, d, Next(s, Unlink(c, k)).nodes[d])
  {
    hide Total, DirsOk, DirOk, CountsOk;
    var i := s.nodes[c].entries[k].inum;
    SlotNames(s.nodes, c, k);
    if s.nodes[i].kind.Dir? {
      RemovableFacts(s.nodes, c, k, i);
      UnlinkDirCounts(s, c, k, i);
      RemovableIsOrphan(s.nodes, c, k, i);
    }
  }

  lemma RemovableIsOrphan(nodes: seq<Node>, d: nat, k: nat, i: nat)
    requires Removable(nodes, d, k, i)
    ensures Orphan(nodes, i, nodes[i])
  {
    RemovableFacts(nodes, d, k, i);
  }

  /** A directory loses its last link only by unlink. */
  lemma StepKeepsOrphans(s: State, step: Step, d: nat)
    requires Inv(s) && Enabled(s, step) && d < |s.nodes|
    requires Next(s, step).nodes[d].kind.Dir? && !Linked(Next(s, step).nodes[d])
    ensures Orphan(s.nodes, d, Next(s, step).nodes[d])
  {
    match step
    case Unlink(c, k) => UnlinkLeavesOrphan(s, c, k, d);
    case Create(c, name, kind, i) => CreateLeavesOrphans(s, c, name, kind, i, d);
    case _ => hide Total, DirsOk, CountsOk;
  }

  lemma CreateLeavesOrphans(s: State, c: nat, name: string, kind: Kind, i: nat, d: nat)
    requires Inv(s) && Enabled(s, Create(c, name, kind, i)) && d < |s.nodes|
    requires var x := Next(s, Create(c, name, kind, i)).nodes[d]; x.kind.Dir? && !Linked(x)
    ensures Orphan(s.nodes, d, Next(s, Create(c, name, kind, i)).nodes[d])
  {
    hide Total, DirsOk, WithEntry, CountsOk, Orphan;
  }

  lemma StepKeepsSound(s: State, step: Step)
    requires Sound(s) && Enabled(s, step)
    ensures Sound(Next(s, step))
  {
    hide Sound, Unlinked, Created, DirOk;
    match step
    case LinkBegin(i) => RaiseKept(s, i, 1, s.pending + multiset{i});
    case LinkEnd(i, d, name) => LinkEndKept(s, i, d, name);
    case LinkFail(i) => PendingIsNode(s, i); RaiseKept(s, i, -1, s.pending - multiset{i});
    case Unlink(d, k) =>
      if s.nodes[s.nodes[d].entries[k].inum].kind.Dir? {
        UnlinkDirKept(s, d, k);
      } else {
        UnlinkFileKept(s, d, k);
      }
    case Create(d, name, kind, i) => CreateKept(s, d, name, kind, i);
    case Release(i) => ReleaseKept(s, i);
  }

  lemma StepKeepsInv(s: State, step: Step)
    requires Inv(s) && Enabled(s, step)
    ensures Inv(Next(s, step))
  {
    StepKeepsSound(s, step);
    hide Sound, Orphan;
    var t := Next(s, step);
    SameSize(s, step);
    forall d | 0 <= d < |t.nodes| && t.nodes[d].kind.Dir? && !Linked(t.nodes[d])
      ensures Orphan(t.nodes, d, t.nodes[d])
    {
      StepKeepsOrphans(s, step, d);
      OrphanSize(s.nodes, t.nodes, d, t.nodes[d]);
    }
  }

  lemma SameSize(s: State, step: Step)
    requires Possible(s, step)
    ensures |Next(s, step).nodes| == |s.nodes|
  {
  }

  lemma OrphanSize(a: seq<Node>, b: seq<Node>, d: nat, x: Node)
    requires |a| == |b| && Orphan(a, d, x)
    ensures Orphan(b, d, x)
  {
  }

  /** Exactly the steps that make no entry in an unlinked directory keep the counts and the directories right. */
  lemma StepExact(s: State, step: Step)
    requires Inv(s) && Possible(s, step)
    ensures Inv(Next(s, step)) <==> IntoLinked(s, step)
  {
    if IntoLinked(s, step) {
      if step.Unlink? {
        OrphanUnlinksNothing(s, step.d, step.k);
      }
      StepKeepsInv(s, step);
    } else {
      OrphanEntryBreaks(s, step);
    }
  }

  lemma PendingIsNode(s: State, i: nat)
    requires Sound(s) && i in s.pending
    ensures 0 < i < |s.nodes| && !s.nodes[i].kind.Free? && !s.nodes[i].kind.Dir? && s.pending[i] > 0
  {
    assert s.pending[i] > 0;
  }

  /** The file system mkfs makes before it adds files: a root directory naming itself twice. */
  predicate Made(s: State) {
    && s.pending == multiset{} && ROOT < |s.nodes|
    && s.nodes[ROOT] == Node(Dir, 1, [Entry(ROOT, "."), Entry(ROOT, "..")])
    && forall i :: 0 <= i < |s.nodes| && i != ROOT ==> s.nodes[i] == Node(Free, 0, [])
  }

  predicate IsRun(states: seq<State>, steps: seq<Step>) {
    && |states| == |steps| + 1 && Made(states[0])
    && forall k :: 0 <= k < |steps| ==> Possible(states[k], steps[k]) && states[k + 1] == Next(states[k], steps[k])
  }

  /** None of the first n steps makes an entry in a directory that has been unlinked. */
  predicate NoOrphanEntries(states: seq<State>, steps: seq<Step>, n: nat)
    requires IsRun(states, steps) && n <= |steps|
  {
    forall k :: 0 <= k < n ==> IntoLinked(states[k], steps[k])
  }

  lemma MadeInv(s: State)
    requires Made(s)
    ensures Inv(s)
  {
    var es := s.nodes[ROOT].entries;
    assert es[1..] == [Entry(ROOT, "..")] && es[1..][1..] == [];
    assert |".."| == 2;
    forall j | 0 < j < |s.nodes| ensures s.nodes[j].nlink == Total(s.nodes, j) {
      var bare := s.nodes[ROOT := Node(Free, 0, [])];
      TotalZero(bare, j);
      TotalSet(bare, ROOT, s.nodes[ROOT], j);
      assert bare[ROOT := s.nodes[ROOT]] == s.nodes;
      assert CountIn(es[1..], j) == if j == ROOT then 1 else 0;
    }
  }

  lemma {:induction false} RunKeepsInv(states: seq<State>, steps: seq<Step>, k: nat)
    requires IsRun(states, steps) && k < |states| && NoOrphanEntries(states, steps, k)
    ensures Inv(states[k])
    decreases k
  {
    if k == 0 {
      MadeInv(states[0]);
    } else {
      RunKeepsInv(states, steps, k - 1);
      StepExact(states[k - 1], steps[k - 1]);
      hide Inv, Made, Next, Possible;
      assert states[k - 1 + 1] == Next(states[k - 1], steps[k - 1]);
    }
  }

  /** Over a whole run everything stays right if and only if no entry is made in an unlinked directory. */
  lemma RunExact(states: seq<State>, steps: seq<Step>)
    requires IsRun(states, steps)
    ensures NoOrphanEntries(states, steps, |steps|) <==> forall k :: 0 <= k < |states| ==> Inv(states[k])
  {
    hide Inv, Made, Next, Possible;
    if NoOrphanEntries(states, steps, |steps|) {
      forall k | 0 <= k < |states| ensures Inv(states[k]) {
        RunKeepsInv(states, steps, k);
      }
    }
    if forall k :: 0 <= k < |states| ==> Inv(states[k]) {
      forall k | 0 <= k < |steps| ensures IntoLinked(states[k], steps[k]) {
        StepExact(states[k], steps[k]);
        assert states[k + 1] == Next(states[k], steps[k]);
      }
    }
  }

  const ROOTDOTS := [Entry(ROOT, "."), Entry(ROOT, "..")]
  const DOTS := [Entry(2, "."), Entry(ROOT, "..")]

  /** Four inodes after n steps of: mkdir d, rmdir d while it is someone's current directory, create f in it. */
  function OrphanState(n: nat): State {
    var hole := Node(Free, 0, []);
    State(
      match n
      case 0 => [hole, Node(Dir, 1, ROOTDOTS), hole, hole]
      case 1 => [hole, Node(Dir, 2, ROOTDOTS + [Entry(2, "d")]), Node(Dir, 1, DOTS), hole]
      case 2 => [hole, Node(Dir, 1, ROOTDOTS + [HOLE]), Node(Dir, 0, DOTS), hole]
      case _ => [hole, Node(Dir, 1, ROOTDOTS + [HOLE]), Node(Dir, 0, DOTS + [Entry(3, "f")]), Node(File, 1, [])],
      multiset{})
  }

  lemma OrphanMakeDirectory()
    ensures Possible(OrphanState(0), Create(ROOT, "d", Dir, 2))
    ensures Next(OrphanState(0), Create(ROOT, "d", Dir, 2)) == OrphanState(1)
  {
    AppendsWhenFull(ROOTDOTS, Entry(2, "d"));
    hide WithEntry;
  }

  lemma OrphanRemoveDirectory()
    ensures Possible(OrphanState(1), Unlink(ROOT, 2)) && Next(OrphanState(1), Unlink(ROOT, 2)) == OrphanState(2)
  {
    assert |".."| == 2;
    assert (ROOTDOTS + [Entry(2, "d")])[2 := HOLE] == ROOTDOTS + [HOLE];
    assert Next(OrphanState(1), Unlink(ROOT, 2)).nodes == OrphanState(2).nodes;
  }

  lemma OrphanMakeFile()
    ensures Possible(OrphanState(2), Create(2, "f", File, 3))
    ensures Next(OrphanState(2), Create(2, "f", File, 3)) == OrphanState(3)
  {
    AppendsWhenFull(DOTS, Entry(3, "f"));
    hide WithEntry;
  }

  /** The run gets a count wrong: f has one link, and no linked directory names it. */
  lemma OrphanRun() returns (states: seq<State>, steps: seq<Step>)
    ensures IsRun(states, steps) && |steps| == 3 && |states[3].nodes| == 4
    ensures states[3].nodes[3].kind.File? && states[3].nodes[3].nlink == 1 && Total(states[3].nodes, 3) == 0
  {
    states := [OrphanState(0), OrphanState(1), OrphanState(2), OrphanState(3)];
    steps := [Create(ROOT, "d", Dir, 2), Unlink(ROOT, 2), Create(2, "f", File, 3)];
    OrphanMakeDirectory();
    OrphanRemoveDirectory();
    OrphanMakeFile();
    OrphanUncounted();
    hide Next, Possible, Total;
  }

  lemma OrphanUncounted()
    ensures Total(OrphanState(3).nodes, 3) == 0
  {
    CountZero(OrphanState(3).nodes[1].entries, 3);
    TotalZero(OrphanState(3).nodes, 3);
  }

  lemma AppendsWhenFull(es: seq<Entry>, e: Entry)
    requires forall k :: 0 <= k < |es| ==> es[k].inum != 0
    ensures WithEntry(es, e) == es + [e]
  {
  }

  /**
   Over all interleavings of create, link and unlink that make no entry in an unlinked directory: every
   inode's link count is exactly the number of entries other than "." that name it in linked directories,
   plus the links still under way; and names in a linked directory are unique.
   */
  lemma LinkCountsExact(states: seq<State>, steps: seq<Step>, k: nat, i: nat)
    requires IsRun(states, steps) && k < |states| && 0 < i < |states[k].nodes|
    requires NoOrphanEntries(states, steps, k)
    ensures states[k].nodes[i].nlink == Total(states[k].nodes, i) + states[k].pending[i]
    ensures Linked(states[k].nodes[i]) ==> UniqueNames(states[k].nodes[i].entries)
    ensures states[k].nodes[i].kind.Free? ==> Total(states[k].nodes, i) == 0
  {
    RunKeepsInv(states, steps, k);
    var s := states[k];
    hide IsRun;
    assert s.nodes[i].nlink == Total(s.nodes, i) + s.pending[i];
    if Linked(s.nodes[i]) {
      assert DirOk(s.nodes, i);
    }
  }

  // ---------- A link call that fails ----------

  predicate CanRun(s: State, steps: seq<Step>)
    decreases |steps|
  {
    steps == [] || (Possible(s, steps[0]) && CanRun(Next(s, steps[0]), steps[1..]))
  }

  function RunSteps(s: State, steps: seq<Step>): State
    requires CanRun(s, steps)
    decreases |steps|
  {
    if steps == [] then s else RunSteps(Next(s, steps[0]), steps[1..])
  }

  /** A step of another process while a link call for i is between its two sections: the call holds a reference to i. */
  predicate ByAnother(s: State, i: nat, step: Step) {
    && step != Release(i)
    && ((step.LinkEnd? || step.LinkFail?) && step.i == i ==> s.pending[i] >= 2)
  }

  predicate ByOthers(s: State, i: nat, steps: seq<Step>)
    requires CanRun(s, steps)
    decreases |steps|
  {
    steps == [] || (ByAnother(s, i, steps[0]) && ByOthers(Next(s, steps[0]), i, steps[1..]))
  }

  /** No one can free an inode that a link call has raised, as long as the counts are right. */
  lemma RaisedStays(s: State, i: nat)
    requires Inv(s) && i in s.pending
    ensures !Possible(s, Release(i))
  {
    PendingIsNode(s, i);
    assert s.nodes[i].nlink == Total(s.nodes, i) + s.pending[i];
  }

  function Begun(s: State, i: nat): State
    requires i < |s.nodes|
  {
    State(s.nodes[i := Raised(s.nodes[i], 1)], s.pending + multiset{i})
  }

  /** The step is possible with and without the count of i raised, and does the same. */
  predicate Commutes(s: State, i: nat, step: Step)
    requires i < |s.nodes|
  {
    && Possible(s, step) && Possible(Begun(s, i), step)
    && Possible(Next(s, step), LinkBegin(i))
    && Next(Begun(s, i), step) == Begun(Next(s, step), i)
  }

  /** Steps of others do the same whether or not the count of i is raised. */
  lemma StepsCommute(s: State, i: nat, step: Step)
    requires Possible(s, LinkBegin(i)) && Possible(Begun(s, i), step) && ByAnother(Begun(s, i), i, step)
    ensures Commutes(s, i, step)
  {
    assert Begun(s, i).pending[i] == s.pending[i] + 1;
    match step
    case LinkBegin(j) => BeginCommutes(s, i, j);
    case LinkEnd(j, d, name) =>
      PendingCommutes(s, i, j);
      EndCommutes(s, i, j, d, name);
    case LinkFail(j) =>
      PendingCommutes(s, i, j);
      FailCommutes(s, i, j);
    case Unlink(d, k) => UnlinkCommutes(s, i, d, k);
    case Create(d, name, kind, j) => CreateCommutes(s, i, d, name, kind, j);
    case Release(j) =>
  }

  lemma PendingCommutes(s: State, i: nat, j: nat)
    requires j in s.pending + multiset{i} && (j == i ==> s.pending[i] >= 1)
    ensures j in s.pending && s.pending + multiset{i} - multiset{j} == s.pending - multiset{j} + multiset{i}
  {
    assert s.pending[j] >= 1;
  }

  lemma BeginCommutes(s: State, i: nat, j: nat)
    requires Possible(s, LinkBegin(i)) && Possible(Begun(s, i), LinkBegin(j))
    ensures Commutes(s, i, LinkBegin(j))
  {
    assert Begun(s, i).pending + multiset{j} == s.pending + multiset{j} + multiset{i};
  }

  lemma EndCommutes(s: State, i: nat, j: nat, d: nat, name: string)
    requires Possible(s, LinkBegin(i)) && Possible(Begun(s, i), LinkEnd(j, d, name)) && j in s.pending
    requires s.pending + multiset{i} - multiset{j} == s.pending - multiset{j} + multiset{i}
    ensures Commutes(s, i, LinkEnd(j, d, name))
  {
    hide WithEntry, Absent;
  }

  lemma FailCommutes(s: State, i: nat, j: nat)
    requires Possible(s, LinkBegin(i)) && Possible(Begun(s, i), LinkFail(j)) && j in s.pending
    requires s.pending + multiset{i} - multiset{j} == s.pending - multiset{j} + multiset{i}
    ensures Commutes(s, i, LinkFail(j))
  {
  }

  lemma UnlinkCommutes(s: State, i: nat, d: nat, k: nat)
    requires Possible(s, LinkBegin(i)) && Possible(Begun(s, i), Unlink(d, k))
    ensures Commutes(s, i, Unlink(d, k))
  {
    hide EmptyDir;
    assert Unlinked(Begun(s, i).nodes, d, k) == Begun(State(Unlinked(s.nodes, d, k), s.pending), i).nodes;
  }

  lemma CreateCommutes(s: State, i: nat, d: nat, name: string, kind: Kind, j: nat)
    requires Possible(s, LinkBegin(i)) && Possible(Begun(s, i), Create(d, name, kind, j))
    ensures Commutes(s, i, Create(d, name, kind, j))
  {
    hide WithEntry, Absent;
    assert Created(Begun(s, i).nodes, d, name, kind, j) ==
           Begun(State(Created(s.nodes, d, name, kind, j), s.pending), i).nodes;
  }

  /**
   A link call that fails restores the old state, whatever others do between its two sections: the result
   is the state that their steps alone lead to.
   */
  /**
   A link call that fails leaves no trace, whatever other calls do between its two sections: the same steps without
   it lead to the same state.
   */
  lemma {:induction false} FailedLinkRestores(s: State, i: nat, steps: seq<Step>)
    requires Possible(s, LinkBegin(i)) && CanRun(Next(s, LinkBegin(i)), steps)
    requires ByOthers(Next(s, LinkBegin(i)), i, steps)
    ensures CanRun(s, steps) && Possible(RunSteps(Next(s, LinkBegin(i)), steps), LinkFail(i))
    ensures Next(RunSteps(Next(s, LinkBegin(i)), steps), LinkFail(i)) == RunSteps(s, steps)
    decreases |steps|
  {
    if steps == [] {
      LoweredAgain(s, i);
    } else {
      StepsCommute(s, i, steps[0]);
      hide Possible, ByAnother;
      FailedLinkRestores(Next(s, steps[0]), i, steps[1..]);
    }
  }

  lemma LoweredAgain(s: State, i: nat)
    requires Possible(s, LinkBegin(i))
    ensures Possible(Begun(s, i), LinkFail(i)) && Next(Begun(s, i), LinkFail(i)) == s
  {
    var t := Begun(s, i);
    assert t.pending[i] > 0;
    assert t.pending - multiset{i} == s.pending;
    assert t.nodes[i := Raised(t.nodes[i], -1)] == s.nodes;
  }
}
