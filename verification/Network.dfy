/** Static networks, walks in them, and the probability that a walk delivers. */
module Networks {
  import opened Finite
  import opened Reals

  datatype Network = Network(
    n: nat,
    neighbours: seq<seq<nat>>,
    quality: map<(nat, nat), real>,
    latency: map<(nat, nat), real>)
  {
    /** Delivery probability of a link; an unknown link delivers nothing. */
    function Q(u: nat, v: nat): real {
      if (u, v) in quality then quality[(u, v)] else 0.0
    }

    function Latency(u: nat, v: nat): real {
      if (u, v) in latency then latency[(u, v)] else 0.0
    }

    predicate Valid() {
      && |neighbours| == n
      && (forall u, k :: 0 <= u < n && 0 <= k < |neighbours[u]| ==> neighbours[u][k] < n)
      && (forall e :: e in quality ==> 0.0 <= quality[e] <= 1.0)
    }
  }

  predicate IsWalk(net: Network, w: seq<nat>) {
    && w != [] && |net.neighbours| == net.n
    && (forall i :: 0 <= i < |w| ==> w[i] < net.n)
    && (forall i :: 0 <= i < |w| - 1 ==> w[i + 1] in net.neighbours[w[i]])
  }

  predicate Joins(net: Network, w: seq<nat>, u: nat, v: nat) {
    IsWalk(net, w) && w[0] == u && w[|w| - 1] == v
  }

  /** The probability that every hop of the walk survives. */
  function Product(net: Network, w: seq<nat>): real {
    if |w| <= 1 then 1.0 else Times(net.Q(w[0], w[1]), Product(net, w[1..]))
  }

  lemma {:induction false} ProductInUnit(net: Network, w: seq<nat>)
    requires net.Valid()
    ensures 0.0 <= Product(net, w) <= 1.0
  {
    hide Times;
    if |w| > 1 {
      ProductInUnit(net, w[1..]);
      TimesInUnit(net.Q(w[0], w[1]), Product(net, w[1..]));
    }
  }

  lemma WalkTail(net: Network, w: seq<nat>)
    requires IsWalk(net, w) && |w| > 1
    ensures IsWalk(net, w[1..])
  {
    forall i | 0 <= i < |w[1..]| - 1 ensures w[1..][i + 1] in net.neighbours[w[1..][i]] {
      assert w[1..][i + 1] == w[i + 2] && w[1..][i] == w[i + 1];
    }
  }

  lemma AppendToWalk(net: Network, w: seq<nat>, x: nat)
    requires IsWalk(net, w) && x < net.n && x in net.neighbours[w[|w| - 1]]
    ensures IsWalk(net, w + [x])
  {
  }

  /** Dropping everything before position `k` cannot lower the product. */
  lemma {:induction false} DropPrefix(net: Network, w: seq<nat>, k: nat)
    requires net.Valid() && k < |w|
    ensures Product(net, w) <= Product(net, w[k..])
  {
    hide Times;
    if k > 0 {
      DropPrefix(net, w[1..], k - 1);
      assert w[1..][k - 1..] == w[k..];
      ProductInUnit(net, w[1..]);
      TimesInUnit(net.Q(w[0], w[1]), Product(net, w[1..]));
    }
  }

  /** Cutting the cycle between two visits of the same node leaves a walk. */
  lemma CutIsWalk(net: Network, w: seq<nat>, i: nat, k: nat)
    requires IsWalk(net, w) && i < k < |w| && w[i] == w[k]
    ensures var s := w[..i] + w[k..];
      IsWalk(net, s) && s[0] == w[0] && s[|s| - 1] == w[|w| - 1] && |s| < |w|
  {
    var s := w[..i] + w[k..];
    forall x | 0 <= x < |s| - 1 ensures s[x + 1] in net.neighbours[s[x]] {
      if x + 1 < i {
        assert s[x] == w[x] && s[x + 1] == w[x + 1];
      } else if x + 1 == i {
        assert s[x] == w[i - 1] && s[x + 1] == w[i];
      } else {
        assert s[x] == w[x - i + k] && s[x + 1] == w[x - i + k + 1];
      }
    }
  }

  /** ... and cannot lower its product. */
  lemma {:induction false} CutRaises(net: Network, w: seq<nat>, i: nat, k: nat)
    requires net.Valid() && i < k < |w| && w[i] == w[k]
    ensures Product(net, w) <= Product(net, w[..i] + w[k..])
    decreases i
  {
    hide Times;
    var s := w[..i] + w[k..];
    if i == 0 {
      assert s == w[k..];
      DropPrefix(net, w, k);
    } else {
      CutRaises(net, w[1..], i - 1, k - 1);
      var t := w[1..][..i - 1] + w[1..][k - 1..];
      assert s[1..] == t && s[0] == w[0] && s[1] == w[1];
      TimesMonotone(net.Q(w[0], w[1]), Product(net, w[1..]), Product(net, t));
    }
  }

  /** Every walk can be made simple without lowering its product; by the
      pigeonhole principle a simple walk has at most `n` nodes. */
  lemma {:induction false} Simplify(net: Network, w: seq<nat>) returns (s: seq<nat>)
    requires net.Valid() && IsWalk(net, w)
    ensures Joins(net, s, w[0], w[|w| - 1]) && Distinct(s) && |s| <= net.n
    ensures Product(net, w) <= Product(net, s)
    decreases |w|
  {
    if Distinct(w) {
      s := w;
      Pigeonhole(s, net.n);
    } else {
      var i, k :| 0 <= i < k < |w| && w[i] == w[k];
      CutIsWalk(net, w, i, k);
      CutRaises(net, w, i, k);
      s := Simplify(net, w[..i] + w[k..]);
    }
  }
}
