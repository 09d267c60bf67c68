/**
 Directory entries and link counts: sys_link, sys_unlink and create of sysfile.c, dirlink of fs.c.

 Link calls overlap with everything else: a call that has raised nlink but not yet written its entry is
 `pending`. create and unlink keep the directory locked throughout and are one step each.
 */
module LinkSpec {

  const ROOT: nat := 1

  /** A directory entry; inum 0 marks an empty slot. Names have at most DIRSIZ characters. */
  datatype Entry = Entry(inum: nat, name: string)

  datatype Kind = Free | Dir | File | Dev

  datatype Node = Node(kind: Kind, nlink: int, entries: seq<Entry>)

  datatype State = State(nodes: seq<Node>, pending: multiset<nat>)

  const HOLE := Entry(0, "")

  /** The directory is reachable through some entry. */
  predicate Linked(x: Node) {
    x.kind.Dir? && x.nlink > 0
  }

  // ---------- Counting entries ----------

  /** How many of the entries name inode i, "." not counted. */
  function CountIn(es: seq<Entry>, i: nat): nat {
    if es == [] then 0 else (if es[0].inum == i && es[0].name != "." then 1 else 0) + CountIn(es[1..], i)
  }

  /** The entries for i in node x, if it is a linked directory. */
  function Contribution(x: Node, i: nat): nat {
    if Linked(x) then CountIn(x.entries, i) else 0
  }

  /** All entries for i in linked directories. */
  function Total(nodes: seq<Node>, i: nat): nat {
    if nodes == [] then 0 else Contribution(nodes[0], i) + Total(nodes[1..], i)
  }

  lemma {:induction false} CountSet(es: seq<Entry>, k: nat, e: Entry, i: nat)
    requires k < |es|
    ensures CountIn(es[k := e], i) + CountIn([es[k]], i) == CountIn(es, i) + CountIn([e], i)
  {
    if k > 0 {
      assert es[k := e][1..] == es[1..][k - 1 := e];
      CountSet(es[1..], k - 1, e, i);
    } else {
      assert es[k := e][1..] == es[1..];
    }
  }

  lemma {:induction false} CountAppend(es: seq<Entry>, e: Entry, i: nat)
    ensures CountIn(es + [e], i) == CountIn(es, i) + CountIn([e], i)
  {
    if es == [] {
      assert es + [e] == [e];
    } else {
      assert (es + [e])[1..] == es[1..] + [e];
      CountAppend(es[1..], e, i);
    }
  }

  lemma {:induction false} CountZero(es: seq<Entry>, i: nat)
    ensures CountIn(es, i) == 0 <==> forall k :: 0 <= k < |es| && es[k].inum == i ==> es[k].name == "."
  {
    if es != [] {
      CountZero(es[1..], i);
      assert forall k :: 0 <= k < |es[1..]| ==> es[1..][k] == es[k + 1];
      if CountIn(es, i) == 0 {
        forall k | 0 <= k < |es| && es[k].inum == i ensures es[k].name == "." {
          assert k > 0 ==> es[k] == es[1..][k - 1];
        }
      }
    }
  }

  lemma {:induction false} TotalSet(nodes: seq<Node>, d: nat, x: Node, i: nat)
    requires d < |nodes|
    ensures Total(nodes[d := x], i) + Contribution(nodes[d], i) == Total(nodes, i) + Contribution(x, i)
  {
    if d > 0 {
      assert nodes[d := x][1..] == nodes[1..][d - 1 := x];
      TotalSet(nodes[1..], d - 1, x, i);
    } else {
      assert nodes[d := x][1..] == nodes[1..];
    }
  }

  lemma {:induction false} TotalZero(nodes: seq<Node>, i: nat)
    ensures Total(nodes, i) == 0 <==> forall d :: 0 <= d < |nodes| ==> Contribution(nodes[d], i) == 0
  {
    if nodes != [] {
      TotalZero(nodes[1..], i);
      assert forall d :: 0 <= d < |nodes[1..]| ==> nodes[1..][d] == nodes[d + 1];
      if Total(nodes, i) == 0 {
        forall d | 0 <= d < |nodes| ensures Contribution(nodes[d], i) == 0 {
          assert d > 0 ==> nodes[d] == nodes[1..][d - 1];
        }
      }
    }
  }

  /** An entry in a linked directory is counted. */
  lemma Counted(nodes: seq<Node>, d: nat, k: nat, i: nat)
    requires d < |nodes| && Linked(nodes[d]) && k < |nodes[d].entries|
    requires nodes[d].entries[k].inum == i && nodes[d].entries[k].name != "."
    ensures Total(nodes, i) > 0
  {
    CountZero(nodes[d].entries, i);
    TotalZero(nodes, i);
  }

  // ---------- The steps ----------

  datatype Step =
    | LinkBegin(i: nat)                             // nlink is raised
    | LinkEnd(i: nat, d: nat, name: string)         // the entry is written
    | LinkFail(i: nat)                              // `bad`: nlink is lowered again
    | Unlink(d: nat, k: nat)                        // the entry in slot k goes
    | Create(d: nat, name: string, kind: Kind, i: nat)
    | Release(i: nat)                               // iput frees an inode without links

  /** dirlookup finds no entry with the name. */
  predicate Absent(es: seq<Entry>, name: string) {
    forall k :: 0 <= k < |es| && es[k].inum != 0 ==> es[k].name != name
  }

  /** isdirempty: nothing but the first two slots. */
  predicate EmptyDir(es: seq<Entry>) {
    forall k :: 2 <= k < |es| ==> es[k].inum == 0
  }

  /** The first empty slot, or the end. */
  function FreeSlot(es: seq<Entry>): (k: nat)
    ensures k <= |es| && (k < |es| ==> es[k].inum == 0)
    ensures forall j :: 0 <= j < k ==> es[j].inum != 0
  {
    if es == [] || es[0].inum == 0 then 0
    else
      var k := FreeSlot(es[1..]);
      assert forall j :: 0 < j < k + 1 ==> es[j] == es[1..][j - 1];
      k + 1
  }

  /** dirlink writes e into the first empty slot. */
  function WithEntry(es: seq<Entry>, e: Entry): (r: seq<Entry>)
  {
    var k := FreeSlot(es);
    if k < |es| then es[k := e] else es + [e]
  }

  function Raised(x: Node, delta: int): Node {
    x.(nlink := x.nlink + delta)
  }

  /** The entries of a new node: "." and ".." for a directory. */
  function Fresh(kind: Kind, i: nat, d: nat): Node {
    Node(kind, 1, if kind.Dir? then [Entry(i, "."), Entry(d, "..")] else [])
  }

  /** What the code does, also in a directory that has been unlinked but is still open or someone's current one. */
  predicate Possible(s: State, step: Step) {
    match step
    case LinkBegin(i) => 0 < i < |s.nodes| && !s.nodes[i].kind.Free? && !s.nodes[i].kind.Dir?
    case LinkEnd(i, d, name) => i < |s.nodes| && i in s.pending && d < |s.nodes| && s.nodes[d].kind.Dir? &&
      Absent(s.nodes[d].entries, name)
    case LinkFail(i) => i < |s.nodes| && i in s.pending
    case Unlink(d, k) => d < |s.nodes| && s.nodes[d].kind.Dir? && k < |s.nodes[d].entries| &&
      var e := s.nodes[d].entries[k];
      0 < e.inum < |s.nodes| && e.name != "." && e.name != ".." &&
      (s.nodes[e.inum].kind.Dir? ==> EmptyDir(s.nodes[e.inum].entries))
    case Create(d, name, kind, i) => d < |s.nodes| && s.nodes[d].kind.Dir? && Absent(s.nodes[d].entries, name) &&
      0 < i < |s.nodes| && s.nodes[i].kind.Free? && !kind.Free?
    case Release(i) => 0 < i < |s.nodes| && s.nodes[i].nlink == 0
  }

  /** A new entry goes into a directory that is still linked. */
  predicate IntoLinked(s: State, step: Step)
    requires Possible(s, step)
  {
    (step.LinkEnd? || step.Create?) ==> Linked(s.nodes[step.d])
  }

  predicate Enabled(s: State, step: Step) {
    Possible(s, step) && IntoLinked(s, step) && (step.Unlink? ==> Linked(s.nodes[step.d]))
  }

  /** The nodes after unlink has cleared slot k of d and lowered both counts. */
  function Unlinked(nodes: seq<Node>, d: nat, k: nat): (r: seq<Node>)
    requires d < |nodes| && k < |nodes[d].entries| && nodes[d].entries[k].inum < |nodes|
    ensures |r| == |nodes|
  {
    var i := nodes[d].entries[k].inum;
    var down := if nodes[i].kind.Dir? then -1 else 0;
    var cleared := nodes[d := Raised(nodes[d], down).(entries := nodes[d].entries[k := HOLE])];
    cleared[i := Raised(cleared[i], -1)]
  }

  function Created(nodes: seq<Node>, d: nat, name: string, kind: Kind, i: nat): (r: seq<Node>)
    requires d < |nodes| && i < |nodes|
    ensures |r| == |nodes|
  {
    var up := if kind.Dir? then 1 else 0;
    var made := nodes[i := Fresh(kind, i, d)];
    made[d := Raised(made[d], up).(entries := WithEntry(made[d].entries, Entry(i, name)))]
  }

  function Next(s: State, step: Step): State
    requires Possible(s, step)
  {
    match step
    case LinkBegin(i) => State(s.nodes[i := Raised(s.nodes[i], 1)], s.pending + multiset{i})
    case LinkEnd(i, d, name) =>
      State(s.nodes[d := s.nodes[d].(entries := WithEntry(s.nodes[d].entries, Entry(i, name)))],
        s.pending - multiset{i})
    case LinkFail(i) => State(s.nodes[i := Raised(s.nodes[i], -1)], s.pending - multiset{i})
    case Unlink(d, k) => State(Unlinked(s.nodes, d, k), s.pending)
    case Create(d, name, kind, i) => State(Created(s.nodes, d, name, kind, i), s.pending)
    case Release(i) => State(s.nodes[i := Node(Free, 0, [])], s.pending)
  }

  // ---------- The invariant ----------

  /** nlink is the number of entries naming the inode, plus the link calls that have raised it already. */
  predicate CountsOk(nodes: seq<Node>, pending: multiset<nat>) {
    forall i {:trigger nodes[i]} :: 0 < i < |nodes| ==> nodes[i].nlink == Total(nodes, i) + pending[i]
  }

  predicate UniqueNames(es: seq<Entry>) {
    forall j, k :: 0 <= j < k < |es| && es[j].inum != 0 && es[k].inum != 0 ==> es[j].name != es[k].name
  }

  /**
   What an entry after the first two of directory d may name: never the root, and a directory only if d is its
   "..".
   */
  predicate ChildOk(nodes: seq<Node>, d: nat, i: nat) {
    && 0 < i < |nodes| && i != ROOT
    && (nodes[i].kind.Dir? ==> Linked(nodes[i]) && |nodes[i].entries| >= 2 && nodes[i].entries[1].inum == d)
  }

  predicate Children(nodes: seq<Node>, d: nat)
    requires d < |nodes|
  {
    var es := nodes[d].entries;
    && (forall k {:trigger es[k]} :: 2 <= k < |es| && es[k].inum != 0 ==> ChildOk(nodes, d, es[k].inum))
    && (forall j, k :: 2 <= j < k < |es| && es[j].inum != 0 && es[j].inum < |nodes| && nodes[es[j].inum].kind.Dir? ==>
          es[j].inum != es[k].inum)
  }

  predicate HasEntry(nodes: seq<Node>, p: nat, d: nat) {
    && 0 < p < |nodes| && Linked(nodes[p])
    && exists k :: 2 <= k < |nodes[p].entries| && nodes[p].entries[k].inum == d
  }

  /** "." and ".." come first, names are unique, ".." is the directory that holds the entry. */
  predicate DirOk(nodes: seq<Node>, d: nat)
    requires d < |nodes|
  {
    var es := nodes[d].entries;
    && |es| >= 2 && es[0] == Entry(d, ".") && es[1].name == ".." && es[1].inum != 0
    && UniqueNames(es)
    && Children(nodes, d)
    && if d == ROOT then es[1].inum == ROOT else HasEntry(nodes, es[1].inum, d)
  }

  predicate DirsOk(nodes: seq<Node>) {
    forall d {:trigger DirOk(nodes, d)} :: 0 <= d < |nodes| && Linked(nodes[d]) ==> DirOk(nodes, d)
  }

  predicate KindsOk(nodes: seq<Node>, pending: multiset<nat>) {
    && ROOT < |nodes| && Linked(nodes[ROOT]) && nodes[0].kind.Free?
    && (forall i :: 0 <= i < |nodes| && nodes[i].kind.Free? ==> nodes[i].nlink == 0)
    && (forall i {:trigger pending[i]} :: i in pending ==>
      0 < i < |nodes| && !nodes[i].kind.Free? && !nodes[i].kind.Dir?)
  }

  /** A directory that is no longer linked holds "." and ".." and nothing else. */
  predicate Orphan(nodes: seq<Node>, d: nat, x: Node) {
    && |x.entries| >= 2 && x.entries[0] == Entry(d, ".") && x.entries[1].name == ".."
    && 0 < d < |nodes| && 0 < x.entries[1].inum < |nodes| && EmptyDir(x.entries)
  }

  predicate OrphansOk(nodes: seq<Node>) {
    forall d :: 0 <= d < |nodes| && nodes[d].kind.Dir? && !Linked(nodes[d]) ==> Orphan(nodes, d, nodes[d])
  }

  predicate Sound(s: State) {
    CountsOk(s.nodes, s.pending) && DirsOk(s.nodes) && KindsOk(s.nodes, s.pending)
  }

  predicate Inv(s: State) {
    Sound(s) && OrphansOk(s.nodes)
  }
}
