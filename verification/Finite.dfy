/** Counting over the node set {0, .., n-1}. */
module Finite {

  /** The nodes of a network of size `n`. */
  function Nodes(n: nat): (r: set<nat>)
    ensures forall v: nat :: v in r <==> v < n
    ensures |r| == n
  {
    if n == 0 then {} else Nodes(n - 1) + {n - 1}
  }

  lemma SubsetSize<T>(s: set<T>, t: set<T>)
    requires s <= t
    ensures |s| <= |t|
    ensures s != t ==> |s| < |t|
  {
    assert t == s + (t - s);
    assert s != t ==> t - s != {};
  }

  predicate Distinct<T(==)>(s: seq<T>) {
    forall i, k :: 0 <= i < k < |s| ==> s[i] != s[k]
  }

  lemma {:induction false} DistinctSize<T>(s: seq<T>)
    requires Distinct(s)
    ensures |set x | x in s| == |s|
  {
    if s != [] {
      var front, last := s[..|s| - 1], s[|s| - 1];
      DistinctSize(front);
      assert (set x | x in s) == (set x | x in front) + {last};
    }
  }

  /** Pigeonhole: a list of distinct nodes is no longer than the node set, and
      covers it when it is as long. */
  lemma Pigeonhole(s: seq<nat>, n: nat)
    requires Distinct(s) && forall x :: x in s ==> x < n
    ensures |s| <= n
    ensures |s| == n ==> forall v: nat :: v < n ==> v in s
  {
    DistinctSize(s);
    var seen := set x | x in s;
    SubsetSize(seen, Nodes(n));
    if |s| == n {
      forall v: nat | v < n ensures v in s {
        assert v in Nodes(n);
      }
    }
  }
}
