/** Node ids and the ascending orderings the analyzer takes of them
    (`OrderBy(x => x)` over a key set, `List<int>.Sort()` over distinct ids). */
module Ids {

  /** Strictly ascending, hence also free of duplicates. */
  predicate StrictlyIncreasing(s: seq<int>) {
    forall i, j | 0 <= i < j < |s| :: s[i] < s[j]
  }

  predicate NoDuplicates<T(==)>(s: seq<T>) {
    forall i, j | 0 <= i < j < |s| :: s[i] != s[j]
  }

  /** Some element of a non-empty set. */
  lemma Pick<T>(s: set<T>) returns (w: T)
    requires s != {}
    ensures w in s
  {
    if forall x :: x !in s { assert false; }
    w :| w in s;
  }

  lemma {:induction false} MinExists(s: set<int>)
    requires s != {}
    ensures exists m :: m in s && forall y | y in s :: m <= y
  {
    var x := Pick(s);
    var rest := s - {x};
    if rest != {} {
      MinExists(rest);
      var m :| m in rest && forall y | y in rest :: m <= y;
      var least := if x < m then x else m;
      forall y | y in s ensures least <= y {
        if y != x { assert y in rest; }
      }
      assert least in s;
    } else {
      assert s == {x};
    }
  }

  /** The least id of a non-empty set. */
  function MinOf(s: set<int>): (m: int)
    requires s != {}
    ensures m in s && forall y | y in s :: m <= y
  {
    MinExists(s);
    var m :| m in s && (forall y | y in s :: m <= y); m
  }

  /** The greatest id of a non-empty set. */
  function MaxOf(s: set<int>): (m: int)
    requires s != {}
    ensures m in s && forall y | y in s :: y <= m
  {
    var negated := set x | x in s :: -x;
    assert negated != {} by {
      var w := Pick(s);
      assert -w in negated;
    }
    var least := MinOf(negated);
    assert forall y | y in s :: -y in negated;
    -least
  }

  /** The ids of `s` in ascending order. */
  function Sorted(s: set<int>): (r: seq<int>)
    ensures StrictlyIncreasing(r)
    ensures forall x :: x in r <==> x in s
    ensures |r| == |s|
    decreases |s|
  {
    if s == {} then []
    else
      var m := MinOf(s);
      var rest := Sorted(s - {m});
      [m] + rest
  }

  /** A strictly increasing sequence holds every element once. */
  lemma StrictlyIncreasingNoDuplicates(s: seq<int>)
    requires StrictlyIncreasing(s)
    ensures NoDuplicates(s)
  {
  }

  lemma SameElementsEmpty<T>(r: seq<T>, t: seq<T>)
    requires forall x :: x in r <==> x in t
    ensures r == [] <==> t == []
  {
    if r != [] {
      var r0 := r[0];
      assert r0 in r;
      assert r0 in t;
    }
    if t != [] {
      var t0 := t[0];
      assert t0 in t;
      assert t0 in r;
    }
  }

  /** Two ascending listings of the same ids are the same listing. */
  lemma {:induction false} SortedUnique(r: seq<int>, t: seq<int>)
    requires StrictlyIncreasing(r) && StrictlyIncreasing(t)
    requires forall x :: x in r <==> x in t
    ensures r == t
  {
    SameElementsEmpty(r, t);
    if r != [] && t != [] {
      var r0, t0 := r[0], t[0];
      assert r0 in r && t0 in t;
      var i :| 0 <= i < |t| && t[i] == r0;
      var j :| 0 <= j < |r| && r[j] == t0;
      assert r0 <= r[j] && t0 <= t[i];
      assert r0 == t0;
      forall x ensures x in r[1..] <==> x in t[1..] {
        if x in r[1..] {
          var k :| 1 <= k < |r| && r[k] == x;
          assert x in r;
          var l :| 0 <= l < |t| && t[l] == x;
          assert l != 0;
          assert t[1..][l - 1] == x;
        }
        if x in t[1..] {
          var k :| 1 <= k < |t| && t[k] == x;
          assert x in t;
          var l :| 0 <= l < |r| && r[l] == x;
          assert l != 0;
          assert r[1..][l - 1] == x;
        }
      }
      SortedUnique(r[1..], t[1..]);
      assert r == [r0] + r[1..];
      assert t == [t0] + t[1..];
    }
  }

  /** The ids of a sequence, as a set. */
  function Elements(s: seq<int>): (r: set<int>)
    ensures forall x :: x in r <==> x in s
  {
    set x | x in s
  }

  /** A set of distinct ids drawn from `s` is no larger than `s`. */
  lemma SubsetCardinality<T>(a: set<T>, b: set<T>)
    requires a <= b
    ensures |a| <= |b|
  {
    assert b == a + (b - a);
  }

  /** A set holding each of `0, ..., n-1` has at least `n` elements. */
  lemma {:induction false} RangeIncluded(used: set<int>, n: nat)
    requires forall k | 0 <= k < n :: k in used
    ensures n <= |used|
  {
    if n > 0 {
      RangeIncluded(used - {n - 1}, n - 1);
    }
  }

  /** Taking one more element out of a set that still holds it leaves fewer behind. */
  lemma RemoveOneShrinks<T>(all: set<T>, removed: set<T>, x: T)
    requires x in all && x !in removed
    ensures |all - (removed + {x})| < |all - removed|
  {
    assert all - (removed + {x}) == (all - removed) - {x};
  }
}
