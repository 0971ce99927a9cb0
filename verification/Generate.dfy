/** Generation of the benchmark's random graphs. Random draws are arbitrary
    values within their range. */
module Generate {
  import opened Finite
  import opened Networks
  import opened QRouting
  import opened Reals
  import opened Regret

  const P_MIN := 0.35
  const LATENCY_MIN_MS := 5.0
  const LATENCY_MAX_MS := 200.0

  type Adjacency = seq<seq<nat>>

  predicate Edge(nbrs: Adjacency, u: nat, x: nat) {
    u < |nbrs| && x in nbrs[u]
  }

  /** Undirected, without self-loops and without parallel edges. */
  ghost predicate SimpleGraph(nbrs: Adjacency) {
    && (forall u :: 0 <= u < |nbrs| ==> Distinct(nbrs[u]))
    && (forall u, x :: Edge(nbrs, u, x) ==> x != u && Edge(nbrs, x, u))
  }

  /** The adjacency lists alone, as a network whose walks can be followed. */
  function Shell(nbrs: Adjacency): Network {
    Network(|nbrs|, nbrs, map[], map[])
  }

  ghost predicate Linked(nbrs: Adjacency, u: nat, v: nat) {
    exists w :: Networks.Joins(Shell(nbrs), w, u, v)
  }

  ghost predicate Connected(nbrs: Adjacency) {
    forall u, v :: 0 <= u < |nbrs| && 0 <= v < |nbrs| ==> Linked(nbrs, u, v)
  }

  // ----- Adding edges -----

  function Added(nbrs: Adjacency, a: nat, b: nat): (r: Adjacency)
    requires a < |nbrs| && b < |nbrs| && a != b
    ensures |r| == |nbrs|
  {
    if b in nbrs[a] then nbrs else nbrs[a := nbrs[a] + [b]][b := nbrs[b] + [a]]
  }

  ghost predicate Extends(more: Adjacency, less: Adjacency) {
    |more| == |less| && forall u, x :: Edge(less, u, x) ==> Edge(more, u, x)
  }

  lemma AddedEdge(nbrs: Adjacency, a: nat, b: nat, u: nat, x: nat)
    requires SimpleGraph(nbrs) && a < |nbrs| && b < |nbrs| && a != b
    ensures Edge(Added(nbrs, a, b), u, x) <==> Edge(nbrs, u, x) || (u == a && x == b) || (u == b && x == a)
  {
    assert Edge(nbrs, a, b) <==> Edge(nbrs, b, a);
  }

  lemma AddedRow(nbrs: Adjacency, a: nat, b: nat, u: nat)
    requires SimpleGraph(nbrs) && a < |nbrs| && b < |nbrs| && a != b && u < |nbrs|
    ensures Distinct(Added(nbrs, a, b)[u])
  {
    assert Edge(nbrs, a, b) <==> Edge(nbrs, b, a);
    assert Distinct(nbrs[u]);
  }

  lemma AddingKeepsSimple(nbrs: Adjacency, a: nat, b: nat)
    requires SimpleGraph(nbrs) && a < |nbrs| && b < |nbrs| && a != b
    ensures SimpleGraph(Added(nbrs, a, b)) && Extends(Added(nbrs, a, b), nbrs)
    ensures Edge(Added(nbrs, a, b), a, b) && Edge(Added(nbrs, a, b), b, a)
  {
    hide Added, Edge;
    forall u: nat | u < |nbrs| ensures Distinct(Added(nbrs, a, b)[u]) {
      AddedRow(nbrs, a, b, u);
    }
    forall u: nat, x: nat
      ensures Edge(Added(nbrs, a, b), u, x) <==> Edge(nbrs, u, x) || (u == a && x == b) || (u == b && x == a)
    {
      AddedEdge(nbrs, a, b, u, x);
    }
  }

  lemma LinksSurvive(less: Adjacency, more: Adjacency, u: nat, v: nat)
    requires Extends(more, less) && Linked(less, u, v)
    ensures Linked(more, u, v)
  {
    var w :| Networks.Joins(Shell(less), w, u, v);
    forall i | 0 <= i < |w| - 1 ensures w[i + 1] in more[w[i]] {
      assert Edge(less, w[i], w[i + 1]);
    }
    assert Networks.Joins(Shell(more), w, u, v);
  }

  lemma LinkOneMore(nbrs: Adjacency, u: nat, v: nat, x: nat)
    requires Linked(nbrs, u, v) && x < |nbrs| && Edge(nbrs, v, x)
    ensures Linked(nbrs, u, x)
  {
    var w :| Networks.Joins(Shell(nbrs), w, u, v);
    AppendToWalk(Shell(nbrs), w, x);
    assert Networks.Joins(Shell(nbrs), w + [x], u, x);
  }

  lemma {:induction false} WalkBack(nbrs: Adjacency, w: seq<nat>, u: nat, k: nat)
    requires SimpleGraph(nbrs) && IsWalk(Shell(nbrs), w) && k < |w| && u < |nbrs| && Linked(nbrs, u, w[k])
    ensures Linked(nbrs, u, w[0])
    decreases k
  {
    if k > 0 {
      assert Edge(nbrs, w[k - 1], w[k]);
      LinkOneMore(nbrs, u, w[k], w[k - 1]);
      WalkBack(nbrs, w, u, k - 1);
    }
  }

  lemma {:induction false} WalkOn(nbrs: Adjacency, w: seq<nat>, u: nat, k: nat)
    requires IsWalk(Shell(nbrs), w) && k < |w| && Linked(nbrs, u, w[0])
    ensures Linked(nbrs, u, w[k])
  {
    if k > 0 {
      WalkOn(nbrs, w, u, k - 1);
      assert Edge(nbrs, w[k - 1], w[k]);
      LinkOneMore(nbrs, u, w[k - 1], w[k]);
    }
  }

  /** Whatever one node reaches, any two such nodes reach one another. */
  lemma LinkedThroughRoot(nbrs: Adjacency, root: nat, u: nat, v: nat)
    requires SimpleGraph(nbrs) && u < |nbrs| && Linked(nbrs, root, u) && Linked(nbrs, root, v)
    ensures Linked(nbrs, u, v)
  {
    var w :| Networks.Joins(Shell(nbrs), w, root, u);
    assert Networks.Joins(Shell(nbrs), [u], u, u);
    WalkBack(nbrs, w, u, |w| - 1);
    var t :| Networks.Joins(Shell(nbrs), t, root, v);
    WalkOn(nbrs, t, u, |t| - 1);
  }

  // ----- The phases of generation -----

  type Draws = map<(nat, nat), real>

  /** The pairs `u < x` with `u` below `i`, or `u` equal to `i` and `x` below `k`, are
      linked exactly when their draw is below the link probability; no others are. */
  ghost predicate DrawnSoFar(nbrs: Adjacency, draws: Draws, linkProb: real, i: nat, k: nat) {
    && (forall u: nat, x: nat :: u < x < |nbrs| && (u < i || (u == i && x < k)) ==>
          (u, x) in draws && 0.0 <= draws[(u, x)] < 1.0 && (Edge(nbrs, u, x) <==> draws[(u, x)] < linkProb))
    && (forall u: nat, x: nat :: u < x < |nbrs| && !(u < i || (u == i && x < k)) ==> !Edge(nbrs, u, x))
  }

  lemma DrawOneMore(nbrs: Adjacency, draws: Draws, linkProb: real, i: nat, k: nat, draw: real)
    requires SimpleGraph(nbrs) && DrawnSoFar(nbrs, draws, linkProb, i, k) && i < k < |nbrs| && 0.0 <= draw < 1.0
    ensures DrawnSoFar(if draw < linkProb then Added(nbrs, i, k) else nbrs, draws[(i, k) := draw], linkProb, i, k + 1)
  {
    var more := if draw < linkProb then Added(nbrs, i, k) else nbrs;
    hide Added, Edge;
    forall u: nat, x: nat | u < x < |nbrs|
      ensures Edge(more, u, x) <==> Edge(nbrs, u, x) || (draw < linkProb && u == i && x == k)
    {
      if draw < linkProb {
        AddedEdge(nbrs, i, k, u, x);
      }
    }
  }

  method RandomEdges(n: nat, linkProb: real) returns (nbrs: Adjacency, draws: Draws)
    ensures |nbrs| == n && SimpleGraph(nbrs) && DrawnSoFar(nbrs, draws, linkProb, n, 0)
    ensures linkProb >= 1.0 ==> forall u: nat, x: nat :: u < x < n ==> Edge(nbrs, u, x)
    ensures linkProb <= 0.0 ==> forall u: nat, x: nat :: u < x < n ==> !Edge(nbrs, u, x)
  {
    hide Added, Edge, SimpleGraph;
    nbrs, draws := seq(n, _ => []), map[];
    NoEdges(n, linkProb);
    for i := 0 to n
      invariant |nbrs| == n && SimpleGraph(nbrs) && DrawnSoFar(nbrs, draws, linkProb, i, 0)
    {
      for j := i + 1 to n
        invariant |nbrs| == n && SimpleGraph(nbrs) && DrawnSoFar(nbrs, draws, linkProb, i, j)
      {
        var draw: real :| 0.0 <= draw < 1.0;
        DrawOneMore(nbrs, draws, linkProb, i, j, draw);
        draws := draws[(i, j) := draw];
        if draw < linkProb {
          AddingKeepsSimple(nbrs, i, j);
          nbrs := Added(nbrs, i, j);
        }
      }
    }
  }

  lemma NoEdges(n: nat, linkProb: real)
    ensures var nbrs: Adjacency := seq(n, _ => []); SimpleGraph(nbrs) && DrawnSoFar(nbrs, map[], linkProb, 0, 0)
  {
  }

  predicate IsPermutation(perm: seq<nat>, n: nat) {
    |perm| == n && Distinct(perm) && forall i :: 0 <= i < n ==> perm[i] < n
  }

  function Swapped(s: seq<nat>, i: nat, j: nat): (r: seq<nat>)
    requires i < |s| && j < |s|
    ensures |r| == |s|
  {
    s[i := s[j]][j := s[i]]
  }

  /** What the picks for positions `i` down to 1 make of a list. */
  function Picked(s: seq<nat>, picks: seq<nat>, i: nat): (r: seq<nat>)
    requires i < |s| == |picks| && forall k :: 0 <= k < |picks| ==> picks[k] <= k
    ensures |r| == |s|
    decreases i
  {
    if i == 0 then s else Picked(Swapped(s, i, picks[i]), picks, i - 1)
  }

  method Shuffle(n: nat) returns (perm: array<nat>, picks: seq<nat>)
    ensures fresh(perm) && IsPermutation(perm[..], n)
    ensures |picks| == n && forall k :: 0 <= k < n ==> picks[k] <= k
    ensures n > 0 ==> perm[..] == Picked(seq(n, i => i), picks, n - 1)
  {
    hide Picked;
    var start: seq<nat> := seq(n, i => i);
    perm := new nat[n](i => i);
    assert perm[..] == start;
    picks :| |picks| == n && forall k :: 0 <= k < n ==> picks[k] <= k by {
      assert |start| == n && forall k :: 0 <= k < n ==> start[k] <= k;
    }
    if n == 0 {
      return;
    }
    var i := n - 1;
    while i >= 1
      invariant i < n && IsPermutation(perm[..], n)
      invariant Picked(perm[..], picks, i) == Picked(start, picks, n - 1)
    {
      var j := picks[i];
      ghost var before := perm[..];
      perm[i], perm[j] := perm[j], perm[i];
      assert perm[..] == Swapped(before, i, j);
      SwapKeepsPermutation(before, n, i, j);
      PickedStep(before, picks, i);
      i := i - 1;
    }
    NothingLeftToPick(perm[..], picks);
  }

  lemma SwapKeepsPermutation(s: seq<nat>, n: nat, i: nat, j: nat)
    requires IsPermutation(s, n) && i < n && j < n
    ensures IsPermutation(Swapped(s, i, j), n)
  {
  }

  lemma {:induction false} PickedStep(s: seq<nat>, picks: seq<nat>, i: nat)
    requires 0 < i < |s| == |picks| && forall k :: 0 <= k < |picks| ==> picks[k] <= k
    ensures Picked(s, picks, i) == Picked(Swapped(s, i, picks[i]), picks, i - 1)
  {
  }

  lemma {:induction false} NothingLeftToPick(s: seq<nat>, picks: seq<nat>)
    requires 0 < |s| == |picks| && forall k :: 0 <= k < |picks| ==> picks[k] <= k
    ensures Picked(s, picks, 0) == s
  {
  }

  /** Every order can come out of the shuffle: the picks are where each element, from
      the last position down, stands at its turn. */
  lemma {:induction false} EveryOrderCanComeOut(s: seq<nat>, target: seq<nat>, n: nat, i: nat) returns (picks: seq<nat>)
    requires IsPermutation(s, n) && IsPermutation(target, n) && i < n && forall k :: i < k < n ==> s[k] == target[k]
    ensures |picks| == n && (forall k :: 0 <= k < n ==> picks[k] <= k)
    ensures Picked(s, picks, i) == target
    decreases i
  {
    Pigeonhole(s, n);
    assert target[i] in s;
    var j :| 0 <= j < n && s[j] == target[i];
    assert forall k :: i < k < n ==> s[k] != target[i];
    if i == 0 {
      picks := seq(n, k => k);
      assert s == target;
    } else {
      var t := Swapped(s, i, j);
      var rest := EveryOrderCanComeOut(t, target, n, i - 1);
      picks := rest[i := j];
      PickedBelow(t, rest, picks, i - 1);
    }
  }

  lemma {:induction false} PickedBelow(s: seq<nat>, p: seq<nat>, q: seq<nat>, i: nat)
    requires i < |s| == |p| == |q| && (forall k :: 0 <= k < |p| ==> p[k] <= k)
      && (forall k :: 0 <= k < |q| ==> q[k] <= k)
    requires forall k :: 0 <= k <= i ==> p[k] == q[k]
    ensures Picked(s, p, i) == Picked(s, q, i)
    decreases i
  {
    if i > 0 {
      PickedBelow(Swapped(s, i, p[i]), p, q, i - 1);
    }
  }

  /** The shuffled nodes up to position `k` all hang together. */
  ghost predicate PrefixLinked(nbrs: Adjacency, perm: seq<nat>, k: nat) {
    k <= |perm| && forall x :: 0 <= x < k ==> Linked(nbrs, perm[0], perm[x])
  }

  lemma AttachToPrefix(nbrs: Adjacency, perm: seq<nat>, i: nat, k: nat)
    requires SimpleGraph(nbrs) && IsPermutation(perm, |nbrs|) && k < i < |perm| && PrefixLinked(nbrs, perm, i)
    ensures perm[i] < |nbrs| && perm[k] < |nbrs| && perm[i] != perm[k]
    ensures PrefixLinked(Added(nbrs, perm[i], perm[k]), perm, i + 1)
  {
    var a, b := perm[i], perm[k];
    AddingKeepsSimple(nbrs, a, b);
    var more := Added(nbrs, a, b);
    forall x | 0 <= x < i ensures Linked(more, perm[0], perm[x]) {
      LinksSurvive(nbrs, more, perm[0], perm[x]);
    }
    LinkOneMore(more, perm[0], b, a);
  }

  /** Beyond `start` exactly the edges between `perm[i]` and its parent at an earlier
      position have been added, for the positions below `k`. */
  ghost predicate Attached(nbrs: Adjacency, start: Adjacency, perm: seq<nat>, parents: seq<nat>, k: nat)
    requires k <= |perm| && k <= |parents| && forall i :: 1 <= i < k ==> parents[i] < i
  {
    forall u: nat, x: nat :: Edge(nbrs, u, x) <==>
      Edge(start, u, x) || exists i :: 1 <= i < k && IsPair(u, x, perm[i], perm[parents[i]])
  }

  predicate IsPair(u: nat, x: nat, a: nat, b: nat) {
    (u == a && x == b) || (u == b && x == a)
  }

  lemma AttachOneMore(nbrs: Adjacency, start: Adjacency, perm: seq<nat>, parents: seq<nat>, i: nat, k: nat)
    requires SimpleGraph(nbrs) && IsPermutation(perm, |nbrs|) && k < i < |perm| && |parents| == i
    requires (forall x :: 1 <= x < i ==> parents[x] < x) && Attached(nbrs, start, perm, parents, i)
    ensures perm[i] < |nbrs| && perm[k] < |nbrs| && perm[i] != perm[k]
    ensures Attached(Added(nbrs, perm[i], perm[k]), start, perm, parents + [k], i + 1)
  {
    var more, longer := Added(nbrs, perm[i], perm[k]), parents + [k];
    hide Added, Edge;
    forall u: nat, x: nat
      ensures Edge(more, u, x) <==>
        Edge(start, u, x) || exists y :: 1 <= y < i + 1 && IsPair(u, x, perm[y], perm[longer[y]])
    {
      AddedEdge(nbrs, perm[i], perm[k], u, x);
      if IsPair(u, x, perm[i], perm[k]) {
        assert IsPair(u, x, perm[i], perm[longer[i]]);
      }
      if y :| 1 <= y < i && IsPair(u, x, perm[y], perm[parents[y]]) {
        assert IsPair(u, x, perm[y], perm[longer[y]]);
      }
      if y :| 1 <= y < i + 1 && IsPair(u, x, perm[y], perm[longer[y]]) && y < i {
        assert IsPair(u, x, perm[y], perm[parents[y]]);
      }
    }
  }

  method SpanningTree(start: Adjacency, perm: array<nat>) returns (nbrs: Adjacency, parents: seq<nat>)
    requires SimpleGraph(start) && IsPermutation(perm[..], |start|)
    ensures |nbrs| == |start| && SimpleGraph(nbrs) && Connected(nbrs)
    ensures |parents| == |start| && forall i :: 1 <= i < |start| ==> parents[i] < i
    ensures |start| > 0 ==> Attached(nbrs, start, perm[..], parents, |start|)
  {
    hide Added, Edge, SimpleGraph, Attached;
    nbrs, parents := start, [];
    ghost var order := perm[..];
    if |start| == 0 {
      NothingToConnect(nbrs);
      return;
    }
    assert Networks.Joins(Shell(nbrs), [order[0]], order[0], order[0]);
    parents := [0];
    NothingAttached(start, order);
    for i := 1 to |start|
      invariant |nbrs| == |start| && SimpleGraph(nbrs) && PrefixLinked(nbrs, order, i)
      invariant |parents| == i && (forall x :: 1 <= x < i ==> parents[x] < x)
      invariant Attached(nbrs, start, order, parents, i)
    {
      var k: nat :| k < i;
      AttachToPrefix(nbrs, order, i, k);
      AttachOneMore(nbrs, start, order, parents, i, k);
      AddingKeepsSimple(nbrs, order[i], order[k]);
      nbrs, parents := Added(nbrs, perm[i], perm[k]), parents + [k];
    }
    PermutationConnects(nbrs, order);
  }

  lemma NothingToConnect(nbrs: Adjacency)
    requires |nbrs| == 0
    ensures Connected(nbrs)
  {
  }

  lemma NothingAttached(start: Adjacency, perm: seq<nat>)
    requires |perm| > 0
    ensures Attached(start, start, perm, [0], 1)
  {
  }

  lemma PermutationConnects(nbrs: Adjacency, perm: seq<nat>)
    requires SimpleGraph(nbrs) && IsPermutation(perm, |nbrs|) && PrefixLinked(nbrs, perm, |perm|)
    ensures Connected(nbrs)
  {
    Pigeonhole(perm, |nbrs|);
    forall u, v | 0 <= u < |nbrs| && 0 <= v < |nbrs| ensures Linked(nbrs, u, v) {
      assert u in perm && v in perm;
      var x :| 0 <= x < |perm| && perm[x] == u;
      var y :| 0 <= y < |perm| && perm[y] == v;
      LinkedThroughRoot(nbrs, perm[0], u, v);
    }
  }

  type LinkMap = map<(nat, nat), real>

  /** The edges of `u` before position `k`, and all edges with a lower first end,
      carry one value in `lo..hi` in both directions; no other pair carries any. */
  ghost predicate Labelled(m: LinkMap, nbrs: Adjacency, u: nat, k: nat, lo: real, hi: real)
    requires u <= |nbrs| && (u < |nbrs| ==> k <= |nbrs[u]|)
  {
    && (forall x: nat, y: nat :: (x, y) in m ==> (y, x) in m && m[(x, y)] == m[(y, x)] && lo <= m[(x, y)] < hi)
    && (forall x: nat, y: nat :: (x, y) in m ==> Edge(nbrs, x, y))
    && (forall x: nat, y: nat :: x < u && x < y && Edge(nbrs, x, y) ==> (x, y) in m)
    && (u < |nbrs| ==> forall y :: y in nbrs[u][..k] && u < y ==> (u, y) in m)
  }

  function Label(m: LinkMap, u: nat, v: nat, value: real): LinkMap {
    m[(u, v) := value][(v, u) := value]
  }

  lemma LabelOne(m: LinkMap, nbrs: Adjacency, u: nat, k: nat, lo: real, hi: real, value: real)
    requires SimpleGraph(nbrs) && u < |nbrs| && k < |nbrs[u]| && lo <= value < hi && Labelled(m, nbrs, u, k, lo, hi)
    ensures Labelled(if u < nbrs[u][k] then Label(m, u, nbrs[u][k], value) else m, nbrs, u, k + 1, lo, hi)
  {
    var v := nbrs[u][k];
    assert Edge(nbrs, u, v) && Edge(nbrs, v, u);
    assert nbrs[u][..k + 1] == nbrs[u][..k] + [v];
    var r := if u < v then Label(m, u, v, value) else m;
    forall x: nat, y: nat | (x, y) in r
      ensures (y, x) in r && r[(x, y)] == r[(y, x)] && lo <= r[(x, y)] < hi && Edge(nbrs, x, y)
    {
      assert (x, y) in m || (x == u && y == v) || (x == v && y == u);
    }
  }

  method LabelEdges(nbrs: Adjacency, lo: real, hi: real) returns (m: LinkMap)
    requires SimpleGraph(nbrs) && lo < hi
    ensures Labelled(m, nbrs, |nbrs|, 0, lo, hi)
  {
    m := map[];
    for u := 0 to |nbrs|
      invariant Labelled(m, nbrs, u, 0, lo, hi)
    {
      for k := 0 to |nbrs[u]|
        invariant Labelled(m, nbrs, u, k, lo, hi)
      {
        var v := nbrs[u][k];
        var offset: real :| 0.0 <= offset < hi - lo;
        LabelOne(m, nbrs, u, k, lo, hi, lo + offset);
        if u < v {
          m := Label(m, u, v, lo + offset);
        }
      }
      assert nbrs[u][..|nbrs[u]|] == nbrs[u];
    }
  }

  /** Exactly the edges are labelled, the same in both directions. */
  ghost predicate LabelsEdges(m: LinkMap, nbrs: Adjacency, lo: real, hi: real) {
    && (forall x: nat, y: nat :: (x, y) in m <==> Edge(nbrs, x, y))
    && (forall x: nat, y: nat :: (x, y) in m ==> (y, x) in m && m[(x, y)] == m[(y, x)] && lo <= m[(x, y)] < hi)
  }

  lemma AllLabelled(m: LinkMap, nbrs: Adjacency, lo: real, hi: real)
    requires SimpleGraph(nbrs) && Labelled(m, nbrs, |nbrs|, 0, lo, hi)
    ensures LabelsEdges(m, nbrs, lo, hi)
  {
    forall x: nat, y: nat | Edge(nbrs, x, y) ensures (x, y) in m {
      if y < x {
        assert (y, x) in m;
      }
    }
  }

  /** What every generated network satisfies. */
  ghost predicate WellGenerated(net: Network) {
    && |net.neighbours| == net.n && SimpleGraph(net.neighbours) && Connected(net.neighbours)
    && LabelsEdges(net.quality, net.neighbours, P_MIN, 1.0)
    && LabelsEdges(net.latency, net.neighbours, LATENCY_MIN_MS, LATENCY_MAX_MS)
  }

  /** Two nodes are linked exactly when their draw said so or the tree joins them. */
  ghost predicate Grown(nbrs: Adjacency, draws: Draws, linkProb: real, order: seq<nat>, parents: seq<nat>) {
    && IsPermutation(order, |nbrs|) && |parents| == |nbrs| && (forall i :: 1 <= i < |nbrs| ==> parents[i] < i)
    && forall u: nat, x: nat :: u < x < |nbrs| ==>
         && (u, x) in draws && 0.0 <= draws[(u, x)] < 1.0
         && (Edge(nbrs, u, x) <==>
               draws[(u, x)] < linkProb || exists i :: 1 <= i < |nbrs| && IsPair(u, x, order[i], order[parents[i]]))
  }

  method GenerateNetwork(n: nat, linkProb: real)
    returns (net: Network, draws: Draws, ghost order: seq<nat>, parents: seq<nat>)
    ensures net.n == n && WellGenerated(net)
    ensures Grown(net.neighbours, draws, linkProb, order, parents)
  {
    hide Edge, SimpleGraph, Connected, Labelled, LabelsEdges;
    var edges, perm, picks, nbrs;
    edges, draws := RandomEdges(n, linkProb);
    perm, picks := Shuffle(n);
    order := perm[..];
    nbrs, parents := SpanningTree(edges, perm);
    var quality := LabelEdges(nbrs, P_MIN, 1.0);
    AllLabelled(quality, nbrs, P_MIN, 1.0);
    var latency := LabelEdges(nbrs, LATENCY_MIN_MS, LATENCY_MAX_MS);
    AllLabelled(latency, nbrs, LATENCY_MIN_MS, LATENCY_MAX_MS);
    net := Network(n, nbrs, quality, latency);
  }

  // ----- Consequences for routing -----

  lemma GeneratedIsValid(net: Network)
    requires WellGenerated(net)
    ensures net.Valid() && LinksAreLossy(net)
  {
    forall e | e in net.quality ensures 0.0 <= net.quality[e] <= 1.0 {
      assert (e.0, e.1) == e;
    }
    forall u, k | 0 <= u < net.n && 0 <= k < |net.neighbours[u]|
      ensures net.neighbours[u][k] < net.n && 0.0 < net.Q(u, net.neighbours[u][k]) < 1.0
    {
      assert Edge(net.neighbours, u, net.neighbours[u][k]);
    }
  }

  /** A generated network of two or more nodes leaves nobody isolated, which is
      what keeps the two Q-routing implementations in step. */
  lemma GeneratedNobodyIsolated(net: Network)
    requires WellGenerated(net) && net.n >= 2
    ensures NobodyIsolated(net)
  {
    forall v | 0 <= v < net.n ensures net.neighbours[v] != [] {
      var u := if v == 0 then 1 else 0;
      assert Linked(net.neighbours, v, u);
      var w :| Networks.Joins(Shell(net.neighbours), w, v, u);
      assert w[1] in net.neighbours[v];
    }
  }
}
