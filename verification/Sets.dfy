/** Finite sets. */
module Sets {

  lemma {:induction false} SubsetSize<T>(a: set<T>, b: set<T>)
    requires a <= b
    ensures |a| <= |b|
  {
    if a != {} {
      var x :| x in a;
      SubsetSize(a - {x}, b - {x});
    }
  }

  lemma {:induction false} RangeSize(s: set<nat>, lo: nat, count: nat)
    requires forall x :: x in s ==> lo <= x < lo + count
    ensures |s| <= count
  {
    if count == 0 {
      assert s == {};
    } else {
      var last := lo + count - 1;
      RangeSize(s - {last}, lo, count - 1);
      SubsetSize(s, s - {last} + {last});
    }
  }

  // ----- the lowest elements of a set -----

  ghost predicate IsLeast(s: set<nat>, x: nat) {
    x in s && forall y :: y in s ==> x <= y
  }

  lemma {:induction false} LeastExists(s: set<nat>)
    requires s != {}
    ensures exists x :: IsLeast(s, x)
  {
    var y :| y in s;
    if s == {y} {
      assert IsLeast(s, y);
    } else {
      assert s - {y} != {} by {
        assert s == s - {y} + {y};
      }
      LeastExists(s - {y});
      var x :| IsLeast(s - {y}, x);
      var m := if x < y then x else y;
      forall z | z in s ensures m <= z {
        assert z == y || z in s - {y};
      }
      assert IsLeast(s, m);
    }
  }

  ghost function Least(s: set<nat>): (x: nat)
    requires s != {}
    ensures IsLeast(s, x)
  {
    LeastExists(s);
    var x :| IsLeast(s, x);
    x
  }

  /** The n lowest elements, all of them if there are no more than n. */
  ghost function Lowest(s: set<nat>, n: nat): (r: set<nat>)
    ensures r <= s
  {
    if n == 0 || s == {} then {} else {Least(s)} + Lowest(s - {Least(s)}, n - 1)
  }

  /** What is left without the n lowest elements. */
  ghost function Rest(s: set<nat>, n: nat): set<nat> {
    s - Lowest(s, n)
  }

  lemma {:induction false} LowestSize(s: set<nat>, n: nat)
    requires n <= |s|
    ensures |Lowest(s, n)| == n && |Rest(s, n)| == |s| - n
  {
    if n > 0 {
      var x := Least(s);
      LowestSize(s - {x}, n - 1);
      assert Rest(s, n) == Rest(s - {x}, n - 1);
    }
  }

  /** Taking the lowest elements twice takes the lowest elements. */
  lemma {:induction false} LowestTwice(s: set<nat>, m: nat, n: nat)
    ensures Lowest(s, m + n) == Lowest(s, m) + Lowest(Rest(s, m), n)
    ensures Rest(s, m + n) == Rest(Rest(s, m), n)
  {
    if m == 0 || s == {} {
      assert Rest(s, m) == s;
    } else {
      var x := Least(s);
      LowestTwice(s - {x}, m - 1, n);
      assert Rest(s, m) == Rest(s - {x}, m - 1);
    }
  }

  lemma LowestOne(s: set<nat>, x: nat)
    requires IsLeast(s, x)
    ensures Lowest(s, 1) == {x} && Rest(s, 1) == s - {x}
  {
    assert Least(s) == x;
    assert Lowest(s, 1) == {x} + Lowest(s - {x}, 0);
  }

  /** What Lowest picks lies below everything that it leaves. */
  lemma {:induction false} LowestBelow(s: set<nat>, n: nat, x: nat, y: nat)
    requires x in Lowest(s, n) && y in Rest(s, n)
    ensures x < y
  {
    if x != Least(s) {
      LowestBelow(s - {Least(s)}, n - 1, x, y);
    }
  }

  lemma LowestAll(s: set<nat>)
    ensures Lowest(s, |s|) == s
  {
    LowestSize(s, |s|);
  }
}
