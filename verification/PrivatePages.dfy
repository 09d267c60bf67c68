/**
 Memory as the processes see it when every page is private: the reference that the eager copyuvm of
 Assignment1 is proved to meet directly, and the copy-on-write one of Assignment3 behind its sharing.
 */
module PrivatePages {

  type Page = seq<int>

  /** memset of a page. */
  function Filled(byte: int): (p: Page)
    ensures |p| == 4096 && forall i :: 0 <= i < |p| ==> p[i] == byte
  {
    seq(4096, _ => byte)
  }

  /** A user page: its process, or directory, and its virtual page number. */
  datatype Key = Key(pid: nat, vpn: nat)

  type Views = map<Key, Page>

  /** fork: the child gets a copy of the first n pages of the parent. */
  ghost function EagerFork(v: Views, parent: nat, child: nat, n: nat): Views {
    v + map k | k in ChildKeys(child, n) && Key(parent, k.vpn) in v :: v[Key(parent, k.vpn)]
  }

  ghost function ChildKeys(child: nat, n: nat): (r: set<Key>)
    ensures forall k :: k in r <==> k.pid == child && k.vpn < n
  {
    if n == 0 then {} else ChildKeys(child, n - 1) + {Key(child, n - 1)}
  }

  lemma ForkStep(v: Views, parent: nat, child: nat, i: nat)
    requires parent != child && Key(parent, i) in v
    ensures Key(parent, i) in EagerFork(v, parent, child, i)
    ensures EagerFork(v, parent, child, i)[Key(parent, i)] == v[Key(parent, i)]
    ensures EagerFork(v, parent, child, i + 1) == EagerFork(v, parent, child, i)[Key(child, i) := v[Key(parent, i)]]
  {
  }

  /** What each page of parent, child and the others holds after the fork. */
  lemma ForkMeans(v: Views, parent: nat, child: nat, n: nat)
    requires parent != child && forall k :: k in v ==> k.pid != child
    requires forall i: nat :: i < n ==> Key(parent, i) in v
    ensures forall i: nat :: i < n ==>
      Key(child, i) in EagerFork(v, parent, child, n) &&
      EagerFork(v, parent, child, n)[Key(child, i)] == v[Key(parent, i)]
    ensures forall k :: k in v ==> k in EagerFork(v, parent, child, n) && EagerFork(v, parent, child, n)[k] == v[k]
    ensures forall k :: k in EagerFork(v, parent, child, n) ==> k in v || (k.pid == child && k.vpn < n)
  {
    forall i: nat | i < n ensures Key(child, i) in EagerFork(v, parent, child, n) {
      assert Key(child, i) in ChildKeys(child, n);
    }
  }

  lemma ForkNothing(v: Views, parent: nat, child: nat)
    ensures EagerFork(v, parent, child, 0) == v && ChildKeys(child, 0) == {}
  {
  }

  lemma DropChild(v: Views, parent: nat, child: nat, i: nat)
    requires forall k :: k in v ==> k.pid != child
    requires forall j: nat :: j < i ==> Key(parent, j) in v
    ensures EagerFork(v, parent, child, i) - Range(child, 0, i) == v
    ensures Range(child, 0, i) == ChildKeys(child, i)
  {
  }

  ghost function Zeroed(pid: nat, lo: nat, hi: nat, zero: Page): Views {
    map k | k in Range(pid, lo, hi) :: zero
  }

  lemma ZeroedStep(v: Views, pid: nat, lo: nat, a: nat, zero: Page)
    requires lo <= a
    ensures (v + Zeroed(pid, lo, a, zero))[Key(pid, a) := zero] == v + Zeroed(pid, lo, a + 1, zero)
  {
  }

  ghost function Range(pid: nat, lo: nat, hi: nat): (r: set<Key>)
    ensures forall k :: k in r <==> k.pid == pid && lo <= k.vpn < hi
    decreases hi
  {
    if hi <= lo then {} else Range(pid, lo, hi - 1) + {Key(pid, hi - 1)}
  }

  lemma NoPages(pid: nat, lo: nat, hi: nat)
    requires hi <= lo
    ensures Range(pid, lo, hi) == {}
  {
  }

  lemma RangeStep(pid: nat, lo: nat, v: nat)
    requires lo <= v
    ensures Range(pid, lo, v + 1) == Range(pid, lo, v) + {Key(pid, v)}
  {
  }

  lemma MinusTwice<T>(m: map<Key, T>, gone: set<Key>, k: Key)
    ensures m - gone - {k} == m - (gone + {k})
  {
    assert (m - gone - {k}).Keys == (m - (gone + {k})).Keys;
  }
}
