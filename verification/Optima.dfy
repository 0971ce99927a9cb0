/** The benchmark's values on generated networks: when every node finds a way, when
    the values are exact, and when every trip of the oracle arm arrives. */
module Optima {
  import opened Benchmark
  import opened Finite
  import opened Generate
  import opened Networks
  import opened OracleValues
  import opened Reals
  import opened Regret

  lemma {:induction false} WalkDelivers(net: Network, w: seq<nat>)
    requires WellGenerated(net) && IsWalk(net, w)
    ensures Pow(P_MIN, |w| - 1) <= Product(net, w)
  {
    if |w| > 1 {
      WalkTail(net, w);
      WalkDelivers(net, w[1..]);
      PowDecreases(P_MIN, 0, |w| - 2);
      var q, p := net.Q(w[0], w[1]), Product(net, w[1..]);
      assert Edge(net.neighbours, w[0], w[1]);
      LowerBoundProduct(P_MIN, q, Pow(P_MIN, |w| - 2), p);
    }
  }

  lemma LowerBoundProduct(a: real, b: real, x: real, y: real)
    requires 0.0 <= a <= b && 0.0 <= x <= y
    ensures a * x <= Times(b, y)
  {
    TimesMonotone(a, x, y);
    TimesMonotone(y, a, b);
    assert Times(a, y) == Times(y, a) && Times(b, y) == Times(y, b);
  }

  /** The worst-case delivery probability of a walk through all nodes. */
  function Worst(n: nat): real {
    if n == 0 then 1.0 else Pow(P_MIN, n - 1)
  }

  /** In every generated network each optimum lies at most n-1 tolerances below
      the worst link quality to the power n-1. */
  lemma GeneratedIsNearWorst(net: Network, dst: nat, eps: real, u: nat)
    requires WellGenerated(net) && 0.0 <= eps && dst < net.n && u < net.n
    ensures net.Valid() && Values(net, dst, eps)[u] >= Worst(net.n) - Slack(net.n - 1, eps)
  {
    var s := GeneratedWalk(net, u, dst);
    WalkDelivers(net, s);
    PowDecreases(P_MIN, |s| - 1, net.n - 1);
    NearOptimal(net, dst, eps, u);
  }

  lemma GeneratedWalk(net: Network, u: nat, dst: nat) returns (s: seq<nat>)
    requires WellGenerated(net) && dst < net.n && u < net.n
    ensures net.Valid() && Networks.Joins(net, s, u, dst) && |s| <= net.n
  {
    GeneratedIsValid(net);
    assert Linked(net.neighbours, u, dst);
    var w :| Networks.Joins(Shell(net.neighbours), w, u, dst);
    assert IsWalk(net, w);
    s := Simplify(net, w);
  }

  // ----- A small enough tolerance lets every node find a way -----

  ghost function Positive(v: seq<real>): set<nat> {
    set u: nat | u < |v| && v[u] > 0.0
  }

  /** A positive value is at least the worst product of a walk through the nodes
      with positive values. */
  ghost predicate WellAbove(v: seq<real>) {
    forall u :: 0 <= u < |v| ==> v[u] == 0.0 || v[u] >= Worst(|Positive(v)|)
  }

  lemma WorstDecreases(i: nat, k: nat)
    requires i <= k
    ensures 0.0 < Worst(k) <= Worst(i)
  {
    PowDecreases(P_MIN, if i == 0 then 0 else i - 1, if k == 0 then 0 else k - 1);
  }

  /** A node next to a positive value has a continuation within one worst link of it. */
  lemma NeighbourLifts(net: Network, v: seq<real>, u: nat, x: nat)
    requires WellGenerated(net) && net.Valid() && |v| == net.n && u < net.n
    requires WellAbove(v) && x in net.neighbours[u] && x < net.n && v[x] > 0.0
    ensures Times(net.Q(u, x), v[x]) >= Worst(|Positive(v)| + 1)
  {
    assert x in Positive(v);
    assert Edge(net.neighbours, u, x);
    var k := |Positive(v)|;
    WorstDecreases(0, k);
    LowerBoundProduct(P_MIN, net.Q(u, x), Worst(k), v[x]);
  }

  lemma ImproveIsWellAbove(net: Network, dst: nat, eps: real, v: seq<real>, u: nat)
    requires WellGenerated(net) && net.Valid() && 0.0 <= eps && |v| == net.n && u < net.n && WellAbove(v)
    ensures WellAbove(Improve(net, dst, eps, v, u))
    ensures Positive(v) <= Positive(Improve(net, dst, eps, v, u))
  {
    hide Times, Worst, WellGenerated;
    var after := Improve(net, dst, eps, v, u);
    WorstDecreases(|Positive(v)|, |Positive(v)|);
    if u != dst && Best(net, v, u) > v[u] + eps {
      assert Positive(after) == Positive(v) + {u};
      if u in Positive(v) {
        assert Positive(after) == Positive(v);
      } else {
        var x := BestIsAttained(net, v, u, |net.neighbours[u]|);
        TimesZero(net.Q(u, x));
        assert x in net.neighbours[u];
        NeighbourLifts(net, v, u, x);
        WorstDecreases(|Positive(v)|, |Positive(v)| + 1);
      }
    }
  }

  /** A small enough tolerance does not hold a node back once it has a neighbour
      with a positive value. */
  lemma ImproveReaches(net: Network, dst: nat, eps: real, v: seq<real>, u: nat, x: nat)
    requires WellGenerated(net) && net.Valid() && 0.0 <= eps < Worst(net.n) && |v| == net.n && u < net.n && WellAbove(v)
    requires u != dst && x in net.neighbours[u] && x < net.n && v[x] > 0.0
    ensures u in Positive(Improve(net, dst, eps, v, u))
  {
    hide Times, Worst, WellGenerated;
    WorstDecreases(|Positive(v)|, |Positive(v)|);
    if u !in Positive(v) {
      NeighbourLifts(net, v, u, x);
      assert net.neighbours[u][..|net.neighbours[u]|] == net.neighbours[u];
      BestIsUpperBound(net, v, u, |net.neighbours[u]|, x);
      SubsetSize(Positive(v) + {u}, Nodes(net.n));
      WorstDecreases(|Positive(v)| + 1, net.n);
    }
  }

  lemma {:induction false} SweepIsWellAbove(net: Network, dst: nat, eps: real, v: seq<real>, i: nat, k: nat)
    requires WellGenerated(net) && net.Valid() && 0.0 <= eps && |v| == net.n && i <= k <= net.n && WellAbove(v)
    ensures WellAbove(Sweep(net, dst, eps, v, k))
    ensures Positive(Sweep(net, dst, eps, v, i)) <= Positive(Sweep(net, dst, eps, v, k))
    decreases k
  {
    hide WellAbove, WellGenerated, Improve, Positive;
    if k > 0 {
      SweepIsWellAbove(net, dst, eps, v, if i < k then i else i - 1, k - 1);
      ImproveIsWellAbove(net, dst, eps, Sweep(net, dst, eps, v, k - 1), k - 1);
    }
  }

  lemma {:induction false} SweepsAreWellAbove(net: Network, dst: nat, eps: real, rounds: nat)
    requires WellGenerated(net) && net.Valid() && 0.0 <= eps && dst < net.n
    ensures WellAbove(Sweeps(net, dst, eps, rounds))
  {
    if rounds == 0 {
      assert Positive(Initial(net.n, dst)) == {dst};
    } else {
      SweepsAreWellAbove(net, dst, eps, rounds - 1);
      SweepIsWellAbove(net, dst, eps, Sweeps(net, dst, eps, rounds - 1), 0, net.n);
    }
  }

  /** After `rounds` sweeps every node within as many hops has a positive value. */
  lemma {:induction false} WalkIsFound(net: Network, dst: nat, eps: real, rounds: nat, w: seq<nat>)
    requires WellGenerated(net) && net.Valid() && 0.0 <= eps < Worst(net.n) && dst < net.n
    requires IsWalk(net, w) && w[|w| - 1] == dst && |w| - 1 <= rounds
    ensures w[0] in Positive(Sweeps(net, dst, eps, rounds))
    decreases rounds
  {
    hide WellAbove, WellGenerated, Improve, Worst;
    var u := w[0];
    if u == dst {
      SweepsRise(net, dst, eps, 0, rounds);
    } else {
      var before := Sweeps(net, dst, eps, rounds - 1);
      WalkTail(net, w);
      WalkIsFound(net, dst, eps, rounds - 1, w[1..]);
      SweepsAreWellAbove(net, dst, eps, rounds - 1);
      SweepIsWellAbove(net, dst, eps, before, 0, u);
      ImproveReaches(net, dst, eps, Sweep(net, dst, eps, before, u), u, w[1]);
      SweepIsWellAbove(net, dst, eps, before, u + 1, net.n);
    }
  }

  /** With a tolerance below the worst link quality to the power n-1, each node's
      value is at least that power: no slack is lost. */
  lemma {:induction false} GeneratedOptimumIsPositive(net: Network, dst: nat, eps: real, u: nat)
    requires WellGenerated(net) && 0.0 <= eps < Worst(net.n) && dst < net.n && u < net.n
    ensures net.Valid() && LinksAreLossy(net)
    ensures Values(net, dst, eps)[u] >= Worst(net.n) > 0.0
  {
    hide Worst;
    GeneratedIsValid(net);
    var w := GeneratedWalk(net, u, dst);
    var v := Sweeps(net, dst, eps, net.n);
    WalkIsFound(net, dst, eps, net.n, w);
    SweepsAreWellAbove(net, dst, eps, net.n);
    SubsetSize(Positive(v), Nodes(net.n));
    WorstDecreases(|Positive(v)|, net.n);
  }

  // ----- A tolerance that is not small enough hides nodes -----

  /** The graph generated when no random edge is drawn, the shuffle moves nothing
      and each of the first `k` nodes is attached to its predecessor. */
  function Chain(n: nat, k: nat): (nbrs: Adjacency)
    requires k <= n
    ensures |nbrs| == n
  {
    if k <= 1 then seq(n, _ => []) else Added(Chain(n, k - 1), k - 1, k - 2)
  }

  lemma {:induction false} ChainGrows(n: nat, k: nat)
    requires k <= n
    ensures SimpleGraph(Chain(n, k)) && (n > 0 ==> PrefixLinked(Chain(n, k), seq(n, i => i), if k == 0 then 1 else k))
    ensures forall u: nat, x: nat :: Edge(Chain(n, k), u, x) <==> u < k && x < k && (u == x + 1 || x == u + 1)
  {
    hide Added;
    var perm := seq(n, i => i);
    if k <= 1 {
      if n > 0 {
        assert Networks.Joins(Shell(Chain(n, k)), [0], 0, 0);
      }
    } else {
      var less := Chain(n, k - 1);
      ChainGrows(n, k - 1);
      AttachToPrefix(less, perm, k - 1, k - 2);
      AddingKeepsSimple(less, k - 1, k - 2);
      forall u: nat, x: nat
        ensures Edge(Chain(n, k), u, x) <==>
          Edge(less, u, x) || (u == k - 1 && x == k - 2) || (u == k - 2 && x == k - 1)
      {
        AddedEdge(less, k - 1, k - 2, u, x);
      }
    }
  }

  function Everywhere(nbrs: Adjacency, value: real): (m: LinkMap)
    ensures forall u: nat, x: nat :: (u, x) in m <==> Edge(nbrs, u, x)
    ensures forall e :: e in m ==> m[e] == value
  {
    map u: nat, x: nat | u < |nbrs| && x in nbrs[u] :: (u, x) := value
  }

  /** The chain with the worst quality on every link. */
  function WorstChain(n: nat): (net: Network)
    ensures net.n == n == |net.neighbours|
  {
    Network(n, Chain(n, n), Everywhere(Chain(n, n), P_MIN), Everywhere(Chain(n, n), LATENCY_MIN_MS))
  }

  lemma WorstChainIsGenerated(n: nat)
    ensures WellGenerated(WorstChain(n))
  {
    hide Chain;
    ChainGrows(n, n);
    if n > 0 {
      var perm := seq(n, i => i);
      assert IsPermutation(perm, n);
      PermutationConnects(Chain(n, n), perm);
    }
  }

  /** No value on the chain exceeds the worst quality to the power of the distance,
      and where that is within the tolerance the value stays 0. */
  ghost predicate Dim(v: seq<real>, eps: real) {
    forall u :: 0 <= u < |v| ==> v[u] <= Pow(P_MIN, u) && (u > 0 && Pow(P_MIN, u) <= eps ==> v[u] == 0.0)
  }

  lemma ChainLink(n: nat, u: nat, x: nat)
    requires u < n && x in WorstChain(n).neighbours[u]
    ensures x < n && (u == x + 1 || x == u + 1) && WorstChain(n).Q(u, x) == P_MIN
  {
    hide Chain;
    ChainGrows(n, n);
    assert Edge(Chain(n, n), u, x);
  }

  lemma {:induction false} ChainOffersLittle(n: nat, v: seq<real>, u: nat, eps: real, k: nat)
    requires WorstChain(n).Valid() && |v| == n && 0 < u < n && Dim(v, eps) && k <= |WorstChain(n).neighbours[u]|
    ensures BestOver(WorstChain(n), v, u, k) <= Pow(P_MIN, u)
  {
    hide WorstChain;
    PowDecreases(P_MIN, u, u);
    if k > 0 {
      var x := WorstChain(n).neighbours[u][k - 1];
      ChainOffersLittle(n, v, u, eps, k - 1);
      ChainLink(n, u, x);
      PowDecreases(P_MIN, u - 1, x);
      TimesMonotone(P_MIN, v[x], Pow(P_MIN, u - 1));
    }
  }

  lemma {:induction false} SweepStaysDim(n: nat, eps: real, v: seq<real>, k: nat)
    requires WorstChain(n).Valid() && 0.0 <= eps && |v| == n && k <= n && Dim(v, eps)
    ensures Dim(Sweep(WorstChain(n), 0, eps, v, k), eps)
  {
    hide WorstChain, Pow, BestOver;
    if k > 1 {
      SweepStaysDim(n, eps, v, k - 1);
      ChainOffersLittle(n, Sweep(WorstChain(n), 0, eps, v, k - 1), k - 1, eps, |WorstChain(n).neighbours[k - 1]|);
    }
  }

  lemma {:induction false} ChainStaysDim(n: nat, eps: real, rounds: nat)
    requires WorstChain(n).Valid() && 0.0 <= eps
    ensures Dim(Sweeps(WorstChain(n), 0, eps, rounds), eps)
  {
    hide WorstChain, Dim, Sweep;
    if rounds == 0 {
      InitialIsDim(n, eps);
    } else {
      ChainStaysDim(n, eps, rounds - 1);
      SweepStaysDim(n, eps, Sweeps(WorstChain(n), 0, eps, rounds - 1), n);
    }
  }

  lemma InitialIsDim(n: nat, eps: real)
    ensures Dim(Initial(n, 0), eps)
  {
    hide Pow;
    forall u: nat | u < n ensures 0.0 < Pow(P_MIN, u) <= Pow(P_MIN, 0) {
      PowDecreases(P_MIN, 0, u);
    }
    PowOfZero(P_MIN);
  }

  lemma {:induction false} PowOfZero(b: real)
    ensures Pow(b, 0) == 1.0
  {
  }

  /** Beyond that distance a node of the chain is given the value 0, although a
      walk leads from it to the destination. */
  lemma {:induction false} ChainHidesNodes(n: nat, eps: real, u: nat)
    requires 0.0 <= eps && 0 < u < n && Pow(P_MIN, u) <= eps
    ensures WellGenerated(WorstChain(n)) && WorstChain(n).Valid() && Values(WorstChain(n), 0, eps)[u] == 0.0
    ensures exists w :: Networks.Joins(WorstChain(n), w, u, 0) && Product(WorstChain(n), w) > 0.0
  {
    var net := WorstChain(n);
    assert net.n == n;
    hide WorstChain, Pow;
    WorstChainIsGenerated(n);
    GeneratedIsValid(net);
    ChainStaysDim(n, eps, n);
    var w := GeneratedWalk(net, u, 0);
    WalkDelivers(net, w);
    PowDecreases(P_MIN, 0, |w| - 1);
  }

  ghost predicate EverybodyFindsAWay(net: Network, eps: real)
    requires net.Valid()
  {
    forall dst, u :: 0 <= dst < net.n && 0 <= u < net.n ==> Values(net, dst, eps)[u] > 0.0
  }

  /** Every node of every generated network of `n` nodes has a positive value for
      every destination if and only if the tolerance is below the worst link
      quality to the power n-1. */
  lemma EverybodyFindsAWayIff(n: nat, eps: real)
    requires 0.0 <= eps && n >= 2
    ensures (forall net :: WellGenerated(net) && net.n == n ==> net.Valid() && EverybodyFindsAWay(net, eps))
      <==> eps < Worst(n)
  {
    if eps < Worst(n) {
      forall net | WellGenerated(net) && net.n == n ensures net.Valid() && EverybodyFindsAWay(net, eps) {
        GeneratedIsValid(net);
        forall dst: nat, u: nat | dst < n && u < n ensures Values(net, dst, eps)[u] > 0.0 {
          GeneratedOptimumIsPositive(net, dst, eps, u);
        }
      }
    } else {
      ChainHidesNodes(n, eps, n - 1);
    }
  }

  /** The shipped tolerance is small enough for networks of at most 27 nodes, and
      for no larger ones. */
  lemma ShippedToleranceIff(n: nat)
    ensures TOLERANCE < Worst(n) <==> n <= 27
  {
    PowAdds(P_MIN, 13, 13);
    PowAdds(P_MIN, 26, 1);
    assert Pow(P_MIN, 13) == 0.00000118272717781982421875;
    assert Pow(P_MIN, 26) > TOLERANCE >= Pow(P_MIN, 27);
    if n <= 27 {
      WorstDecreases(n, 27);
    } else {
      WorstDecreases(28, n);
    }
  }

  // ----- When every trip arrives -----

  /** Every oracle trip that is not lost reaches its destination within the hop limit. */
  ghost predicate EverybodyArrives(net: Network, eps: real)
    requires net.Valid()
  {
    forall src, dst :: 0 <= src < net.n && 0 <= dst < net.n ==>
      var r := Follow(net, Values(net, dst, eps), dst, [src], TTL); r[|r| - 1] == dst
  }

  /** At the shipped tolerance, in every generated network small enough for the hop
      limit, an oracle trip that is not lost arrives, uncharged, along a walk within
      n-1 tolerances of the best. */
  lemma {:induction false} GeneratedTripArrives(net: Network, src: nat, dst: nat, trip: seq<nat>)
    requires WellGenerated(net) && net.Valid() && net.n <= TTL + 1 && src < net.n && dst < net.n
    requires trip != [] && trip == Follow(net, Values(net, dst, TOLERANCE), dst, [src], |trip| - 1)
    requires trip[|trip| - 1] == dst || |trip| - 1 == TTL || Ahead(net, trip) == []
    ensures NearBest(net, dst, TOLERANCE, src, trip)
    ensures Charges(net, Values(net, dst, TOLERANCE), trip, |trip| - 1) == 0.0
  {
    hide Values, Follow, Charges, Worst;
    ShippedToleranceIff(net.n);
    GeneratedOptimumIsPositive(net, dst, TOLERANCE, src);
    OracleTrip(net, src, dst, TOLERANCE, trip, false);
  }

  /** A hop along the chain moves by one place. */
  lemma {:induction false} ChainIsLong(n: nat, w: seq<nat>)
    requires IsWalk(WorstChain(n), w)
    ensures w[0] <= w[|w| - 1] + |w| - 1
  {
    hide WorstChain;
    if |w| > 1 {
      ChainLink(n, w[0], w[1]);
      WalkTail(WorstChain(n), w);
      ChainIsLong(n, w[1..]);
    }
  }

  /** At the shipped tolerance every trip in every generated network of `n` nodes
      arrives, unless lost, if and only if n-1 hops fit the hop limit. */
  lemma EverybodyArrivesIff(n: nat)
    ensures (forall net :: WellGenerated(net) && net.n == n ==> net.Valid() && EverybodyArrives(net, TOLERANCE))
      <==> n <= TTL + 1
  {
    if n <= TTL + 1 {
      forall net | WellGenerated(net) && net.n == n ensures net.Valid() && EverybodyArrives(net, TOLERANCE) {
        SmallNetworksArrive(net);
      }
    } else {
      LongChainIsNotCrossed(n);
    }
  }

  lemma SmallNetworksArrive(net: Network)
    requires WellGenerated(net) && net.n <= TTL + 1
    ensures net.Valid() && EverybodyArrives(net, TOLERANCE)
  {
    hide WellGenerated, Values, Follow, Worst;
    GeneratedIsValid(net);
    forall src: nat, dst: nat | src < net.n && dst < net.n
      ensures var r := Follow(net, Values(net, dst, TOLERANCE), dst, [src], TTL); r[|r| - 1] == dst
    {
      ShippedToleranceIff(net.n);
      GeneratedOptimumIsPositive(net, dst, TOLERANCE, src);
      GreedyIsNearBest(net, dst, TOLERANCE, src, TTL);
    }
  }

  lemma LongChainIsNotCrossed(n: nat)
    requires n > TTL + 1
    ensures WellGenerated(WorstChain(n)) && WorstChain(n).Valid() && !EverybodyArrives(WorstChain(n), TOLERANCE)
  {
    hide Chain, WorstChain, Values, Follow, WellGenerated, Ahead, Worst;
    var net := WorstChain(n);
    WorstChainIsGenerated(n);
    GeneratedIsValid(net);
    var v := Values(net, 0, TOLERANCE);
    FollowStops(net, v, 0, [n - 1], TTL);
    var r := Follow(net, v, 0, [n - 1], TTL);
    assert r[0] == n - 1;
    ChainIsLong(n, r);
  }

  // ----- When the values are exact -----

  /** No walk of any length exceeds a value. */
  ghost predicate AllExact(net: Network, eps: real)
    requires net.Valid()
  {
    forall dst: nat, u: nat, w :: dst < net.n && Networks.Joins(net, w, u, dst) ==>
      Product(net, w) <= Values(net, dst, eps)[u]
  }

  /** Nodes 0, 1 and 2 form a triangle, and every other node is attached to node 0. */
  function TriangleRows(n: nat): (nbrs: Adjacency)
    requires n >= 3
    ensures |nbrs| == n
  {
    [seq(n - 1, (k: nat) => k + 1), [0, 2], [0, 1]] + seq(n - 3, _ => [0])
  }

  /** Delivery probabilities of the links, and latencies to go with them. */
  function TriangleQuality(d: real, u: nat, x: nat): real {
    if u + x == 1 then 0.49 - d else if u <= 2 && x <= 2 then 0.7 else P_MIN
  }

  function TriangleLinks(nbrs: Adjacency, d: real): (m: LinkMap)
    ensures forall u: nat, x: nat :: (u, x) in m <==> Edge(nbrs, u, x)
    ensures forall u: nat, x: nat :: (u, x) in m ==> m[(u, x)] == TriangleQuality(d, u, x)
  {
    map u: nat, x: nat | u < |nbrs| && x in nbrs[u] :: (u, x) := TriangleQuality(d, u, x)
  }

  /** The detour from node 1 over node 2 is better than the direct link by `d`. */
  function Triangle(n: nat, d: real): (net: Network)
    requires n >= 3
    ensures net.n == n == |net.neighbours|
  {
    var nbrs := TriangleRows(n);
    Network(n, nbrs, TriangleLinks(nbrs, d), Everywhere(nbrs, LATENCY_MIN_MS))
  }

  lemma TriangleEdges(n: nat, u: nat, x: nat)
    requires n >= 3
    ensures Edge(TriangleRows(n), u, x) <==> u < n && x < n && u != x && (u == 0 || x == 0 || (u <= 2 && x <= 2))
  {
    if u == 0 {
      assert TriangleRows(n)[0] == seq(n - 1, (k: nat) => k + 1);
      assert 0 < x < n ==> TriangleRows(n)[0][x - 1] == x;
    }
  }

  lemma TriangleIsSimple(n: nat)
    requires n >= 3
    ensures SimpleGraph(TriangleRows(n)) && Connected(TriangleRows(n))
  {
    var nbrs := TriangleRows(n);
    forall u | 0 <= u < n ensures Distinct(nbrs[u]) {
    }
    hide TriangleRows;
    forall u: nat, x: nat
      ensures Edge(nbrs, u, x) <==> u < n && x < n && u != x && (u == 0 || x == 0 || (u <= 2 && x <= 2))
    {
      TriangleEdges(n, u, x);
    }
    assert SimpleGraph(nbrs);
    hide Edge, Linked;
    forall u: nat, v: nat | u < n && v < n ensures Linked(nbrs, u, v) {
      LinkedToZero(nbrs, u);
      LinkedToZero(nbrs, v);
      LinkedThroughRoot(nbrs, 0, u, v);
    }
  }

  lemma LinkedToZero(nbrs: Adjacency, u: nat)
    requires u < |nbrs| && (u == 0 || Edge(nbrs, 0, u))
    ensures Linked(nbrs, 0, u)
  {
    assert Networks.Joins(Shell(nbrs), [0], 0, 0);
    if u != 0 {
      LinkOneMore(nbrs, 0, 0, u);
    }
  }

  lemma EverywhereLabels(nbrs: Adjacency, value: real, lo: real, hi: real)
    requires SimpleGraph(nbrs) && lo <= value < hi
    ensures LabelsEdges(Everywhere(nbrs, value), nbrs, lo, hi)
  {
    hide Everywhere, Edge;
  }

  lemma TriangleIsLabelled(nbrs: Adjacency, d: real)
    requires SimpleGraph(nbrs) && 0.0 <= d <= 0.1
    ensures LabelsEdges(TriangleLinks(nbrs, d), nbrs, P_MIN, 1.0)
  {
    hide TriangleLinks, Edge;
    var m := TriangleLinks(nbrs, d);
    forall x: nat, y: nat | (x, y) in m ensures (y, x) in m && m[(x, y)] == m[(y, x)] && P_MIN <= m[(x, y)] < 1.0 {
    }
  }

  lemma TriangleIsGenerated(n: nat, d: real)
    requires n >= 3 && 0.0 <= d <= 0.1
    ensures WellGenerated(Triangle(n, d)) && Triangle(n, d).Valid()
  {
    TriangleIsSimple(n);
    TriangleIsLabelled(TriangleRows(n), d);
    EverywhereLabels(TriangleRows(n), LATENCY_MIN_MS, LATENCY_MIN_MS, LATENCY_MAX_MS);
    assert Triangle(n, d).neighbours == TriangleRows(n);
    hide TriangleRows, TriangleLinks, Everywhere, SimpleGraph, Connected, LabelsEdges;
    GeneratedIsValid(Triangle(n, d));
  }

  /** Node 1 has taken the direct link and the better detour is within the tolerance. */
  predicate Stuck(v: seq<real>, d: real) {
    |v| >= 3 && v[0] == 1.0 && v[1] == 0.49 - d && v[2] == 0.7
  }

  /** What nodes 1 and 2 are offered. */
  lemma TriangleBest(n: nat, d: real, v: seq<real>, u: nat)
    requires n >= 3 && Triangle(n, d).Valid() && |v| == n && 1 <= u <= 2
    ensures Best(Triangle(n, d), v, u)
      == Max(Max(0.0, Times(if u == 1 then 0.49 - d else 0.7, v[0])), Times(0.7, v[3 - u]))
  {
    var net := Triangle(n, d);
    assert net.neighbours[u] == [0, 3 - u];
    assert net.Q(u, 0) == (if u == 1 then 0.49 - d else 0.7) && net.Q(u, 3 - u) == 0.7;
    hide Triangle, Times;
    assert BestOver(net, v, u, 0) == 0.0;
    assert BestOver(net, v, u, 1) == Max(0.0, Times(net.Q(u, 0), v[0]));
  }

  lemma StaysStuck(n: nat, d: real, eps: real, v: seq<real>, u: nat)
    requires n >= 3 && 0.0 < d <= 0.1 && d <= eps && Triangle(n, d).Valid() && |v| == n && u < n && Stuck(v, d)
    ensures Stuck(Improve(Triangle(n, d), 0, eps, v, u), d)
  {
    hide Triangle, BestOver;
    if u == 1 || u == 2 {
      TriangleBest(n, d, v, u);
    }
  }

  lemma {:induction false} SweepStaysStuck(n: nat, d: real, eps: real, v: seq<real>, i: nat, k: nat)
    requires n >= 3 && 0.0 < d <= 0.1 && d <= eps && Triangle(n, d).Valid() && |v| == n && i <= k <= n
    requires Stuck(Sweep(Triangle(n, d), 0, eps, v, i), d)
    ensures Stuck(Sweep(Triangle(n, d), 0, eps, v, k), d)
    decreases k
  {
    hide Triangle, Improve, Stuck;
    if i < k {
      SweepStaysStuck(n, d, eps, v, i, k - 1);
      StaysStuck(n, d, eps, Sweep(Triangle(n, d), 0, eps, v, k - 1), k - 1);
    }
  }

  lemma {:induction false} FirstTurns(n: nat, d: real, eps: real)
    requires n >= 3 && 0.0 < d <= 0.1 && d <= eps < P_MIN && Triangle(n, d).Valid()
    ensures Stuck(Sweep(Triangle(n, d), 0, eps, Initial(n, 0), 3), d)
  {
    hide Triangle, BestOver;
    var net, v := Triangle(n, d), Initial(n, 0);
    TriangleBest(n, d, v, 1);
    assert Sweep(net, 0, eps, v, 0) == v;
    assert Sweep(net, 0, eps, v, 1) == v;
    var one := Sweep(net, 0, eps, v, 2);
    assert one == v[1 := 0.49 - d];
    TriangleBest(n, d, one, 2);
    assert Sweep(net, 0, eps, v, 3) == one[2 := 0.7];
  }

  lemma {:induction false} SweepsStayStuck(n: nat, d: real, eps: real, rounds: nat)
    requires n >= 3 && 0.0 < d <= 0.1 && d <= eps < P_MIN && Triangle(n, d).Valid() && rounds > 0
    ensures Stuck(Sweeps(Triangle(n, d), 0, eps, rounds), d)
  {
    hide Triangle, Sweep, Stuck;
    if rounds == 1 {
      FirstTurns(n, d, eps);
      assert Sweeps(Triangle(n, d), 0, eps, 0) == Initial(n, 0);
      SweepStaysStuck(n, d, eps, Initial(n, 0), 3, n);
    } else {
      SweepsStayStuck(n, d, eps, rounds - 1);
      var v := Sweeps(Triangle(n, d), 0, eps, rounds - 1);
      assert Sweep(Triangle(n, d), 0, eps, v, 0) == v by {
        NoTurnYet(Triangle(n, d), 0, eps, v);
      }
      SweepStaysStuck(n, d, eps, v, 0, n);
    }
  }

  lemma {:induction false} NoTurnYet(net: Network, dst: nat, eps: real, v: seq<real>)
    requires net.Valid() && |v| == net.n
    ensures Sweep(net, dst, eps, v, 0) == v
  {
  }

  lemma DetourLinks(n: nat, d: real)
    requires n >= 3
    ensures var net := Triangle(n, d);
      && 2 in net.neighbours[1] && 0 in net.neighbours[2] && net.Q(1, 2) == 0.7 && net.Q(2, 0) == 0.7
  {
    var net := Triangle(n, d);
    assert net.neighbours[1] == [0, 2] && net.neighbours[2] == [0, 1];
    hide TriangleRows;
    assert Edge(net.neighbours, 1, 2) && Edge(net.neighbours, 2, 0);
  }

  lemma DetourIsBetter(n: nat, d: real)
    requires n >= 3 && Triangle(n, d).Valid()
    ensures Networks.Joins(Triangle(n, d), [1, 2, 0], 1, 0) && Product(Triangle(n, d), [1, 2, 0]) == 0.49
  {
    hide Triangle;
    DetourLinks(n, d);
    TwoHops(Triangle(n, d), 1, 2, 0);
  }

  lemma {:induction false} TwoHops(net: Network, u: nat, x: nat, y: nat)
    requires net.Valid() && u < net.n && x < net.n && y < net.n && x in net.neighbours[u] && y in net.neighbours[x]
    ensures Networks.Joins(net, [u, x, y], u, y) && Product(net, [u, x, y]) == Times(net.Q(u, x), net.Q(x, y))
  {
    var w := [u, x, y];
    assert w[1..] == [x, y] && w[1..][1..] == [y];
    hide Times;
    TimesOne(net.Q(x, y));
    assert Product(net, [y]) == 1.0;
    assert Product(net, [x, y]) == net.Q(x, y);
  }

  /** A positive tolerance misses the detour. */
  lemma TriangleIsNotExact(n: nat, eps: real)
    requires n >= 3 && 0.0 < eps < P_MIN
    ensures exists net :: WellGenerated(net) && net.n == n && net.Valid() && !AllExact(net, eps)
  {
    hide Triangle, WellGenerated, Sweeps;
    var d := if eps < 0.1 then eps else 0.1;
    var net := Triangle(n, d);
    TriangleIsGenerated(n, d);
    DetourIsBetter(n, d);
    SweepsStayStuck(n, d, eps, n);
    assert Values(net, 0, eps)[1] == 0.49 - d;
    assert !AllExact(net, eps);
  }

  /** For three or more nodes, the values of every generated network are the products
      of the best walks if and only if there is no tolerance. */
  lemma AllExactIff(n: nat, eps: real)
    requires 0.0 <= eps && n >= 3
    ensures (forall net :: WellGenerated(net) && net.n == n ==> net.Valid() && AllExact(net, eps)) <==> eps == 0.0
  {
    if eps == 0.0 {
      forall net | WellGenerated(net) && net.n == n ensures net.Valid() && AllExact(net, eps) {
        GeneratedIsValid(net);
        forall dst: nat, u: nat, w | dst < n && Networks.Joins(net, w, u, dst)
          ensures Product(net, w) <= Values(net, dst, eps)[u]
        {
          NearOptimal(net, dst, eps, u);
          NoSlack(net.n - 1);
        }
      }
    } else if eps < P_MIN {
      TriangleIsNotExact(n, eps);
    } else {
      assert Pow(P_MIN, 1) == P_MIN;
      ChainHidesNodes(n, eps, 1);
    }
  }
}
