/**
 sys_link, sys_unlink, create and iput on the inode table, with the loops of dirlookup, dirlink,
 isdirempty and ialloc. Path names are resolved by the caller: a method is given the inode that namei or
 nameiparent has found. Each section that holds a directory locked is proved to be one step of LinkSpec.
 */
module Links {
  import opened LinkSpec
  import LinkInvariant

  datatype Found = Missing | Slot(k: nat)

  /** NoInodes and NoType are panics, of ialloc and of ilock on a free inode. */
  datatype CreateOutcome = Opened(i: nat) | Made(i: nat) | Refused | NoInodes | NoType

  class Tree {
    const inodes: array<Node>
    ghost var pending: multiset<nat>

    ghost function State(): State
      reads this, inodes
    {
      LinkSpec.State.State(inodes[..], pending)
    }

    ghost predicate Valid()
      reads this, inodes
    {
      Inv(State())
    }

    /** mkfs, before it adds files. */
    constructor (table: array<Node>)
      requires LinkInvariant.Made(LinkSpec.State.State(table[..], multiset{}))
      ensures Valid() && inodes == table && pending == multiset{}
    {
      inodes, pending := table, multiset{};
      new;
      LinkInvariant.MadeInv(State());
    }

    /** dirlookup: the first slot whose entry has the name. */
    method DirLookup(d: nat, name: string) returns (r: Found)
      requires d < inodes.Length
      ensures r.Missing? <==> Absent(inodes[d].entries, name)
      ensures r.Missing? ==>
        forall k :: 0 <= k < |inodes[d].entries| && inodes[d].entries[k].inum != 0 ==> inodes[d].entries[k].name != name
      ensures r.Slot? ==> r.k < |inodes[d].entries| && inodes[d].entries[r.k].inum != 0
      ensures r.Slot? ==> inodes[d].entries[r.k].name == name
    {
      var es := inodes[d].entries;
      var k := 0;
      while k < |es|
        invariant 0 <= k <= |es|
        invariant forall j :: 0 <= j < k && es[j].inum != 0 ==> es[j].name != name
      {
        if es[k].inum != 0 && es[k].name == name {
          return Slot(k);
        }
        k := k + 1;
      }
      r := Missing;
    }

    /** dirlink: refuses a name that is there, else writes into the first empty slot or at the end. */
    method DirLink(d: nat, name: string, inum: nat) returns (ok: bool)
      requires d < inodes.Length
      modifies inodes
      ensures ok <==> Absent(old(inodes[d].entries), name)
      ensures inodes[..] == if ok
        then old(inodes[..])[d := old(inodes[d]).(entries := WithEntry(old(inodes[d].entries), Entry(inum, name)))]
        else old(inodes[..])
      ensures ok ==> inodes[d].kind == old(inodes[d].kind) && inodes[d].nlink == old(inodes[d].nlink)
    {
      var there := DirLookup(d, name);
      if there.Slot? {
        return false;
      }
      var es := inodes[d].entries;
      var k := 0;
      while k < |es| && es[k].inum != 0
        invariant 0 <= k <= |es| && forall j :: 0 <= j < k ==> es[j].inum != 0
      {
        k := k + 1;
      }
      assert k == FreeSlot(es) && es == old(inodes[d].entries);
      var e := Entry(inum, name);
      inodes[d] := inodes[d].(entries := if k < |es| then es[k := e] else es + [e]);
      ok := true;
    }

    method IsDirEmpty(i: nat) returns (empty: bool)
      requires i < inodes.Length
      ensures empty <==> EmptyDir(inodes[i].entries)
      ensures empty <==> forall k :: 2 <= k < |inodes[i].entries| ==> inodes[i].entries[k].inum == 0
    {
      var es := inodes[i].entries;
      var k := 2;
      while k < |es|
        invariant 2 <= k && forall j :: 2 <= j < k && j < |es| ==> es[j].inum == 0
      {
        if es[k].inum != 0 {
          return false;
        }
        k := k + 1;
      }
      empty := true;
    }

    /** ialloc's search: the first free inode. */
    method FindFree() returns (r: Found)
      ensures r.Slot? ==> 0 < r.k < inodes.Length && inodes[r.k].kind.Free?
      ensures r.Slot? ==> forall i :: 0 < i < r.k ==> !inodes[i].kind.Free?
      ensures r.Missing? ==> forall i :: 0 < i < inodes.Length ==> !inodes[i].kind.Free?
    {
      var i := 1;
      while i < inodes.Length
        invariant 1 <= i && forall j :: 0 < j < i && j < inodes.Length ==> !inodes[j].kind.Free?
      {
        if inodes[i].kind.Free? {
          return Slot(i);
        }
        i := i + 1;
      }
      r := Missing;
    }

    /** sys_link up to iunlock(ip): false for a directory. */
    method BeginLink(i: nat) returns (ok: bool)
      requires Valid() && 0 < i < inodes.Length && !inodes[i].kind.Free?
      modifies this`pending, inodes
      ensures Valid() && ok == !old(inodes[i]).kind.Dir?
      ensures State() == if ok then Next(old(State()), LinkBegin(i)) else old(State())
      ensures inodes[i] == old(inodes[i]).(nlink := old(inodes[i].nlink) + if ok then 1 else 0)
      ensures forall j :: 0 <= j < inodes.Length && j != i ==> inodes[j] == old(inodes[j])
    {
      if inodes[i].kind.Dir? {
        return false;
      }
      LinkInvariant.StepKeepsInv(State(), LinkBegin(i));
      hide Inv;
      inodes[i] := Raised(inodes[i], 1);
      pending := pending + multiset{i};
      ok := true;
    }

    /**
     The rest of sys_link: the entry in the parent directory, or `bad`; parent is Missing if the path has no
     directory. The link counts stay right exactly if the parent is still linked or the call fails.
     */
    method EndLink(i: nat, parent: Found, name: string) returns (ok: bool)
      requires Valid() && i < inodes.Length && i in pending
      requires parent.Slot? ==> parent.k < inodes.Length && inodes[parent.k].kind.Dir?
      modifies this`pending, inodes
      ensures parent.Slot? ==> (Valid() <==> !ok || old(Linked(inodes[parent.k])))
      ensures parent.Missing? ==> Valid()
      ensures ok <==> parent.Slot? && Absent(old(inodes[parent.k].entries), name)
      ensures State() == Next(old(State()), if ok then LinkEnd(i, parent.k, name) else LinkFail(i))
      ensures !ok ==> inodes[i] == old(inodes[i]).(nlink := old(inodes[i].nlink) - 1)
      ensures ok ==>
        inodes[parent.k] == old(inodes[parent.k]).(entries := WithEntry(old(inodes[parent.k].entries), Entry(i, name)))
      ensures forall j :: 0 <= j < inodes.Length && j != (if ok then parent.k else i) ==> inodes[j] == old(inodes[j])
    {
      hide Inv, WithEntry, FreeSlot, Absent;
      ghost var s := State();
      ok := false;
      if parent.Slot? {
        ok := DirLink(parent.k, name, i);
      }
      if !ok {
        inodes[i] := Raised(inodes[i], -1);
      }
      LinkInvariant.StepExact(s, if ok then LinkEnd(i, parent.k, name) else LinkFail(i));
      pending := pending - multiset{i};
    }

    /** A whole sys_link with nothing in between: it makes the entry, or changes nothing at all. */
    method Link(i: nat, parent: Found, name: string) returns (ok: bool)
      requires Valid() && 0 < i < inodes.Length && !inodes[i].kind.Free?
      requires parent.Slot? ==> parent.k < inodes.Length && inodes[parent.k].kind.Dir?
      modifies this`pending, inodes
      ensures parent.Slot? ==> (Valid() <==> !ok || old(Linked(inodes[parent.k])))
      ensures parent.Missing? ==> Valid()
      ensures pending == old(pending)
      ensures ok <==> !old(inodes[i]).kind.Dir? && parent.Slot? && Absent(old(inodes[parent.k].entries), name)
      ensures !ok ==> inodes[..] == old(inodes[..])
      ensures ok ==> i != parent.k && inodes[i] == old(inodes[i]).(nlink := old(inodes[i].nlink) + 1)
      ensures ok ==>
        inodes[parent.k] == old(inodes[parent.k]).(entries := WithEntry(old(inodes[parent.k].entries), Entry(i, name)))
      ensures ok ==> forall j :: 0 <= j < inodes.Length && j != i && j != parent.k ==> inodes[j] == old(inodes[j])
    {
      hide Inv, WithEntry, FreeSlot, Absent;
      ghost var s := State();
      var begun := BeginLink(i);
      if !begun {
        return false;
      }
      assert pending[i] > 0;
      ghost var es := if parent.Slot? then inodes[parent.k].entries else [];
      assert parent.Slot? && parent.k != i ==> inodes[parent.k] == s.nodes[parent.k];
      ok := EndLink(i, parent, name);
      if ok {
        assert es == old(inodes[parent.k].entries);
      }
      if !ok {
        LinkInvariant.FailedLinkRestores(s, i, []);
      } else {
        assert pending == s.pending + multiset{i} - multiset{i};
      }
    }

    /** sys_unlink of a name in directory d. */
    method Unlink(d: nat, name: string) returns (ok: bool)
      requires Valid() && 0 < d < inodes.Length && inodes[d].kind.Dir?
      modifies inodes
      ensures Valid()
      ensures !ok ==> inodes[..] == old(inodes[..])
      ensures ok ==> exists k: nat ::
        UnlinksSlot(old(State()), d, k, name) && State() == Next(old(State()), LinkSpec.Step.Unlink(d, k))
      ensures ok <==> exists k: nat :: UnlinksSlot(old(State()), d, k, name)
      ensures
        var b := old(inodes[..]);
        ok <==> name != "." && name != ".." && exists k ::
          && 0 <= k < |b[d].entries| && b[d].entries[k].inum != 0 && b[d].entries[k].name == name
          && b[d].entries[k].inum < |b|
          && var x := b[b[d].entries[k].inum];
            x.kind.Dir? ==> forall j :: 2 <= j < |x.entries| ==> x.entries[j].inum == 0
      ensures
        var b := old(inodes[..]);
        ok ==> exists k ::
          && 0 <= k < |b[d].entries| && b[d].entries[k].name == name && 0 < b[d].entries[k].inum < |b|
          && inodes[d].entries == b[d].entries[k := Entry(0, "")]
          && var i := b[d].entries[k].inum;
            forall j :: 0 <= j < |b| ==>
              && inodes[j].kind == b[j].kind && (j != d ==> inodes[j].entries == b[j].entries)
              && inodes[j].nlink ==
                 b[j].nlink - (if j == i then 1 else 0) - (if j == d && b[i].kind.Dir? then 1 else 0)
    {
      hide Inv, DirOk;
      ghost var s := State();
      if name == "." || name == ".." {
        return false;
      }
      var there := DirLookup(d, name);
      if there.Missing? {
        return false;
      }
      var k := there.k;
      OtherName(s, d, k);
      var i := inodes[d].entries[k].inum;
      EntryLive(s, d, k);
      if inodes[i].nlink < 1 {
        assert false;  // the panic "unlink: nlink < 1"
      }
      SameSlot(s, d, k, name);
      OnlySlot(s, d, k, name);
      if inodes[i].kind.Dir? {
        var empty := IsDirEmpty(i);
        if !empty {
          return false;
        }
      }
      assert UnlinksSlot(s, d, k, name);
      LinkInvariant.StepKeepsInv(s, LinkSpec.Step.Unlink(d, k));
      inodes[d] := inodes[d].(entries := inodes[d].entries[k := HOLE]);
      if inodes[i].kind.Dir? {
        inodes[d] := Raised(inodes[d], -1);
      }
      inodes[i] := Raised(inodes[i], -1);
      assert inodes[..] == Unlinked(s.nodes, d, k);
      ok := true;
    }

    /** create from ialloc on: the new inode, its "." and "..", and its entry; neither panic can happen. */
    method MakeNode(d: nat, name: string, kind: Kind, i: nat)
      requires 0 < d < inodes.Length && 0 < i < inodes.Length && i != d && Absent(inodes[d].entries, name)
      modifies inodes
      ensures inodes[..] == Created(old(inodes[..]), d, name, kind, i)
      ensures inodes[i].kind == kind && inodes[i].nlink == 1
      ensures inodes[i].entries == if kind.Dir? then [Entry(i, "."), Entry(d, "..")] else []
      ensures inodes[d].kind == old(inodes[d].kind)
      ensures inodes[d].nlink == old(inodes[d].nlink) + if kind.Dir? then 1 else 0
      ensures inodes[d].entries == WithEntry(old(inodes[d].entries), Entry(i, name))
      ensures forall j :: 0 <= j < inodes.Length && j != i && j != d ==> inodes[j] == old(inodes[j])
    {
      ghost var nodes := inodes[..];
      inodes[i] := Node(kind, 1, []);
      if kind.Dir? {
        inodes[d] := Raised(inodes[d], 1);
        var dot := DirLink(i, ".", i);
        var dotdot := DirLink(i, "..", d);
        assert dot && dotdot by {  // the panic "create dots"
          assert |".."| == 2;
        }
        DotEntries(i, d);
      }
      assert inodes[i] == Fresh(kind, i, d);
      var linked := DirLink(d, name, i);
      assert linked;  // the panic "create: dirlink"
      assert inodes[..] == Created(nodes, d, name, kind, i);
    }

    /** create in directory d; the link counts stay right exactly if d is still linked or nothing is made. */
    method Create(d: nat, name: string, kind: Kind) returns (r: CreateOutcome)
      requires Valid() && 0 < d < inodes.Length && inodes[d].kind.Dir? && !kind.Free?
      modifies inodes
      ensures Valid() <==> !r.Made? || old(Linked(inodes[d]))
      ensures r.Made? ==> Possible(old(State()), LinkSpec.Step.Create(d, name, kind, r.i))
      ensures r.Made? ==> State() == Next(old(State()), LinkSpec.Step.Create(d, name, kind, r.i))
      ensures r.Made? ==> 0 < r.i < inodes.Length && r.i != d && old(inodes[r.i]).kind.Free?
      ensures r.Made? ==> forall j :: 0 < j < r.i ==> !old(inodes[j]).kind.Free?
      ensures r.Made? ==> inodes[r.i].kind == kind && inodes[r.i].nlink == 1
      ensures r.Made? ==> inodes[r.i].entries == if kind.Dir? then [Entry(r.i, "."), Entry(d, "..")] else []
      ensures r.Made? ==> inodes[d].kind.Dir? && inodes[d].nlink == old(inodes[d].nlink) + if kind.Dir? then 1 else 0
      ensures r.Made? ==> inodes[d].entries == WithEntry(old(inodes[d].entries), Entry(r.i, name))
      ensures r.Made? ==> forall j :: 0 <= j < inodes.Length && j != r.i && j != d ==> inodes[j] == old(inodes[j])
      ensures
        var b := old(inodes[..]);
        forall k :: 0 <= k < |b[d].entries| && b[d].entries[k].inum != 0 && b[d].entries[k].name == name ==>
          var i := b[d].entries[k].inum;
          && i < |b|
          && (r.NoType? <==> b[i].kind.Free?)
          && (r.Opened? <==> kind.File? && b[i].kind.File?)
          && (r.Opened? ==> r.i == i)
      ensures r.NoType? ==> !old(Linked(inodes[d])) && name == ".."
      ensures !r.Made? ==> inodes[..] == old(inodes[..])
      ensures r.Made? || r.NoInodes? <==> Absent(old(inodes[d].entries), name)
      ensures r.NoInodes? ==> forall i :: 0 < i < inodes.Length ==> !old(inodes[i].kind).Free?
      ensures r.Made? ==> exists i :: 0 < i < inodes.Length && old(inodes[i].kind).Free?
    {
      ghost var s := State();
      var there := DirLookup(d, name);
      if there.Slot? {
        var i := inodes[d].entries[there.k].inum;
        EntryInTable(s, d, there.k);
        OnlySlot(s, d, there.k, name);
        if inodes[i].kind.Free? {
          return NoType;
        }
        return if kind.File? && inodes[i].kind.File? then Opened(i) else Refused;
      }
      var free := FindFree();
      if free.Missing? {
        return NoInodes;
      }
      var i := free.k;
      LinkInvariant.StepExact(s, LinkSpec.Step.Create(d, name, kind, i));
      hide Inv, WithEntry;
      MakeNode(d, name, kind, i);
      r := Made(i);
    }

    /** iput of an inode that is in use `refs` times: the last use of an inode without links frees it. */
    method Iput(i: nat, refs: nat) returns (left: nat)
      requires Valid() && 0 < i < inodes.Length && refs >= 1
      modifies inodes
      ensures Valid() && left == refs - 1
      ensures State() == if old(inodes[i].nlink) == 0 && left == 0 then Next(old(State()), Release(i)) else old(State())
      ensures old(inodes[i].nlink) == 0 && left == 0 ==>
        inodes[i].kind.Free? && inodes[i].nlink == 0 && inodes[i].entries == []
      ensures old(inodes[i].nlink) != 0 || left > 0 ==> inodes[i] == old(inodes[i])
      ensures forall j :: 0 <= j < inodes.Length && j != i ==> inodes[j] == old(inodes[j])
    {
      if inodes[i].nlink == 0 && refs == 1 {
        LinkInvariant.StepKeepsInv(State(), Release(i));
        hide Inv;
        inodes[i] := Node(Free, 0, []);
      }
      left := refs - 1;
    }
  }

  ghost predicate Named(es: seq<Entry>, k: nat, name: string) {
    k < |es| && es[k].inum != 0 && es[k].name == name
  }

  /** A name is in a directory once. */
  lemma OneName(s: State, d: nat, k: nat, name: string)
    requires Inv(s) && 0 < d < |s.nodes| && s.nodes[d].kind.Dir? && Named(s.nodes[d].entries, k, name)
    ensures forall j: nat :: Named(s.nodes[d].entries, j, name) ==> j == k
  {
    if Linked(s.nodes[d]) {
      assert DirOk(s.nodes, d) && UniqueNames(s.nodes[d].entries);
    } else {
      assert Orphan(s.nodes, d, s.nodes[d]);
      assert |".."| == 2;
    }
  }

  /** A new entry takes the first empty slot, or comes behind the last one; no other slot changes. */
  lemma WithEntryMeans(es: seq<Entry>, e: Entry) returns (k: nat)
    ensures k <= |es| && (forall j :: 0 <= j < k ==> es[j].inum != 0) && (k < |es| ==> es[k].inum == 0)
    ensures WithEntry(es, e) == if k < |es| then es[k := e] else es + [e]
  {
    k := FreeSlot(es);
  }

  lemma OnlySlot(s: State, d: nat, k: nat, name: string)
    requires Inv(s) && 0 < d < |s.nodes| && s.nodes[d].kind.Dir? && k < |s.nodes[d].entries|
    requires s.nodes[d].entries[k].inum != 0 && s.nodes[d].entries[k].name == name
    ensures
      var es := s.nodes[d].entries;
      forall j :: 0 <= j < |es| && es[j].inum != 0 && es[j].name == name ==> j == k
  {
    OneName(s, d, k, name);
    var es := s.nodes[d].entries;
    forall j | 0 <= j < |es| && es[j].inum != 0 && es[j].name == name ensures j == k {
      assert Named(es, j, name);
    }
  }

  lemma DotEntries(i: nat, d: nat)
    requires i != 0
    ensures WithEntry(WithEntry([], Entry(i, ".")), Entry(d, "..")) == [Entry(i, "."), Entry(d, "..")]
  {
    assert WithEntry([], Entry(i, ".")) == [Entry(i, ".")];
    assert [Entry(i, ".")][1..] == [];
  }

  /** Slot k of d is the one unlink of this name removes. */
  ghost predicate UnlinksSlot(s: State, d: nat, k: nat, name: string) {
    Enabled(s, LinkSpec.Step.Unlink(d, k)) && s.nodes[d].entries[k].name == name
  }

  /** What a non-empty slot of a linked directory names is in the table and has a link. */
  lemma EntryLive(s: State, d: nat, k: nat)
    requires Inv(s) && 0 < d < |s.nodes| && Linked(s.nodes[d]) && k < |s.nodes[d].entries|
    requires s.nodes[d].entries[k].inum != 0
    ensures s.nodes[d].entries[k].inum < |s.nodes| && s.nodes[s.nodes[d].entries[k].inum].nlink >= 1
  {
    var es := s.nodes[d].entries;
    assert DirOk(s.nodes, d);
    if k >= 2 {
      assert ChildOk(s.nodes, d, es[k].inum);
    }
    var i := es[k].inum;
    assert s.nodes[i].nlink == Total(s.nodes, i) + s.pending[i];
    if k > 0 {
      assert |".."| == 2;
      Counted(s.nodes, d, k, i);
    }
  }

  /** What a slot of any directory names is in the table; it may be free if it is the ".." of an unlinked one. */
  lemma EntryInTable(s: State, d: nat, k: nat)
    requires Inv(s) && 0 < d < |s.nodes| && s.nodes[d].kind.Dir? && k < |s.nodes[d].entries|
    requires s.nodes[d].entries[k].inum != 0
    ensures s.nodes[d].entries[k].inum < |s.nodes|
    ensures s.nodes[s.nodes[d].entries[k].inum].kind.Free? ==> !Linked(s.nodes[d]) && s.nodes[d].entries[k].name == ".."
  {
    if Linked(s.nodes[d]) {
      EntryLive(s, d, k);
    } else {
      assert Orphan(s.nodes, d, s.nodes[d]);
    }
  }

  /** A directory that is no longer linked has no names but the first two. */
  lemma OtherName(s: State, d: nat, k: nat)
    requires Inv(s) && 0 < d < |s.nodes| && s.nodes[d].kind.Dir? && k < |s.nodes[d].entries|
    requires s.nodes[d].entries[k].inum != 0 && s.nodes[d].entries[k].name !in {".", ".."}
    ensures Linked(s.nodes[d])
  {
  }

  /** Names are unique, so only this slot can be unlinked by the name. */
  lemma SameSlot(s: State, d: nat, k: nat, name: string)
    requires Inv(s) && 0 < d < |s.nodes| && Linked(s.nodes[d]) && k < |s.nodes[d].entries|
    requires s.nodes[d].entries[k].inum != 0 && s.nodes[d].entries[k].name == name
    ensures forall j: nat :: UnlinksSlot(s, d, j, name) ==> j == k
  {
    assert DirOk(s.nodes, d);
    assert UniqueNames(s.nodes[d].entries);
  }
}
