/** The regret charged for a next-hop decision, and the arm that follows the
    optimum greedily. */
module Regret {
  import opened Finite
  import opened Networks
  import opened OracleValues
  import opened Orders
  import opened Reals

  /** The values the benchmark computes for a destination. */
  function Values(net: Network, dst: nat, eps: real): (v: seq<real>)
    requires net.Valid()
    ensures |v| == net.n
  {
    Sweeps(net, dst, eps, net.n)
  }

  lemma ValuesInUnit(net: Network, dst: nat, eps: real, u: nat)
    requires net.Valid() && 0.0 <= eps && dst < net.n && u < net.n
    ensures 0.0 <= Values(net, dst, eps)[u] <= 1.0 && Values(net, dst, eps)[dst] == 1.0
  {
    NearOptimal(net, dst, eps, u);
    SweepsRise(net, dst, eps, 0, net.n);
    var value := Values(net, dst, eps)[u];
    if value != 0.0 {
      var w :| Networks.Joins(net, w, u, dst) && Product(net, w) == value;
      ProductInUnit(net, w);
    }
  }

  // ----- Regret of one decision -----

  /** Value lost by handing the message from `u` to `x`, before clamping. */
  function RawRegret(net: Network, v: seq<real>, u: nat, x: nat): real
    requires u < |v| && x < |v|
  {
    v[u] - Times(net.Q(u, x), v[x])
  }

  function Charge(net: Network, v: seq<real>, u: nat, x: nat): real
    requires u < |v| && x < |v|
  {
    Max(RawRegret(net, v, u, x), 0.0)
  }

  /** A neighbour's offer exceeds a node's value by at most one tolerance. */
  lemma OfferIsBounded(net: Network, dst: nat, eps: real, u: nat, x: nat)
    requires net.Valid() && 0.0 <= eps && dst < net.n && u < net.n && x in net.neighbours[u]
    ensures x < net.n
    ensures 0.0 <= Times(net.Q(u, x), Values(net, dst, eps)[x]) <= Values(net, dst, eps)[u] + eps
  {
    hide Times, BestOver, Sweeps;
    var v := Values(net, dst, eps);
    ValuesInUnit(net, dst, eps, u);
    ValuesInUnit(net, dst, eps, x);
    TimesInUnit(net.Q(u, x), v[x]);
    if u != dst {
      NothingAhead(net, dst, eps, u);
      assert net.neighbours[u][..|net.neighbours[u]|] == net.neighbours[u];
      BestIsUpperBound(net, v, u, |net.neighbours[u]|, x);
    }
  }

  /** Raw regret lies between minus one tolerance and 1; without a tolerance the
      clamp at zero is inert. */
  lemma RegretBounds(net: Network, dst: nat, eps: real, u: nat, x: nat)
    requires net.Valid() && 0.0 <= eps && dst < net.n && u < net.n && x in net.neighbours[u]
    ensures x < net.n
    ensures -eps <= RawRegret(net, Values(net, dst, eps), u, x) <= 1.0
    ensures eps == 0.0 ==> Charge(net, Values(net, dst, eps), u, x) == RawRegret(net, Values(net, dst, eps), u, x)
  {
    OfferIsBounded(net, dst, eps, u, x);
    ValuesInUnit(net, dst, eps, u);
  }

  /** Each value is offered by a neighbour, and no neighbour offers more than one
      tolerance beyond it: the optimality equation up to that tolerance. */
  lemma Bellman(net: Network, dst: nat, eps: real, u: nat)
    requires net.Valid() && 0.0 <= eps && dst < net.n && u < net.n && u != dst
    ensures var v := Values(net, dst, eps); v[u] <= Best(net, v, u) <= v[u] + eps
  {
    hide Times, Sweeps;
    var v := Values(net, dst, eps);
    BestIsNonnegative(net, v, u, |net.neighbours[u]|);
    ValuesInUnit(net, dst, eps, u);
    NothingAhead(net, dst, eps, u);
    if v[u] > 0.0 {
      var x := OfferedNeighbour(net, dst, eps, u);
      BestIsUpperBound(net, v, u, |net.neighbours[u]|, x);
    }
  }

  /** A neighbour whose offer supports the value. */
  lemma OfferedNeighbour(net: Network, dst: nat, eps: real, u: nat) returns (x: nat)
    requires net.Valid() && 0.0 <= eps && dst < net.n && u < net.n && u != dst && Values(net, dst, eps)[u] > 0.0
    ensures x < net.n && x in net.neighbours[u] && x in net.neighbours[u][..|net.neighbours[u]|]
    ensures Values(net, dst, eps)[u] <= Times(net.Q(u, x), Values(net, dst, eps)[x])
  {
    hide Times, Sweeps;
    var v := Values(net, dst, eps);
    SweepsAreSupported(net, dst, eps, net.n);
    assert IsOffered(net, v, u);
    x :| x in net.neighbours[u] && x < net.n && v[u] <= Times(net.Q(u, x), v[x]);
    assert net.neighbours[u][..|net.neighbours[u]|] == net.neighbours[u];
  }

  lemma NoSlack(hops: nat)
    ensures Slack(hops, 0.0) == 0.0
  {
  }

  lemma {:induction false} BestIsNonnegative(net: Network, v: seq<real>, u: nat, k: nat)
    requires net.Valid() && |v| == net.n && u < net.n && k <= |net.neighbours[u]|
    ensures 0.0 <= BestOver(net, v, u, k)
  {
    hide Times;
    if k > 0 {
      BestIsNonnegative(net, v, u, k - 1);
    }
  }

  // ----- Regret telescopes along any hop sequence -----

  /** The raw regrets of the first `k` hops, each weighted by the probability
      that the message gets as far as that hop. */
  function ReachedRegret(net: Network, v: seq<real>, w: seq<nat>, k: nat): real
    requires k < |w| && forall i :: 0 <= i < |w| ==> w[i] < |v|
  {
    if k == 0 then 0.0
    else ReachedRegret(net, v, w, k - 1) + Times(Product(net, w[..k]), RawRegret(net, v, w[k - 1], w[k]))
  }

  lemma {:induction false} ProductSnoc(net: Network, w: seq<nat>, k: nat)
    requires 0 < k < |w|
    ensures Product(net, w[..k + 1]) == Times(Product(net, w[..k]), net.Q(w[k - 1], w[k]))
    decreases k
  {
    hide Times;
    TimesOne(net.Q(w[0], w[1]));
    if k == 1 {
      assert w[..2][1..] == [w[1]];
    } else {
      var t := w[1..];
      ProductSnoc(net, t, k - 1);
      assert w[..k + 1][1..] == t[..k] && w[..k][1..] == t[..k - 1];
      TimesAssociative(net.Q(w[0], w[1]), Product(net, t[..k - 1]), net.Q(w[k - 1], w[k]));
    }
  }

  lemma {:induction false} Telescopes(net: Network, v: seq<real>, w: seq<nat>, k: nat)
    requires k < |w| && forall i :: 0 <= i < |w| ==> w[i] < |v|
    ensures v[w[0]] == ReachedRegret(net, v, w, k) + Times(Product(net, w[..k + 1]), v[w[k]])
  {
    hide Times;
    if k == 0 {
      TimesOne(v[w[0]]);
    } else {
      Telescopes(net, v, w, k - 1);
      ProductSnoc(net, w, k);
      var p, q := Product(net, w[..k]), net.Q(w[k - 1], w[k]);
      TimesDistributes(p, v[w[k - 1]], Times(q, v[w[k]]));
      TimesAssociative(p, q, v[w[k]]);
    }
  }

  /** For every hop sequence that ends at the destination, what it falls short of
      the value of its start is the regret it expects to be charged. */
  lemma {:induction false} RegretIsShortfall(net: Network, dst: nat, eps: real, w: seq<nat>)
    requires net.Valid() && 0.0 <= eps && dst < net.n
    requires w != [] && w[|w| - 1] == dst && forall i :: 0 <= i < |w| ==> w[i] < net.n
    ensures Values(net, dst, eps)[w[0]] - Product(net, w) == ReachedRegret(net, Values(net, dst, eps), w, |w| - 1)
  {
    var v := Values(net, dst, eps);
    Telescopes(net, v, w, |w| - 1);
    assert w[..|w|] == w;
    ValuesInUnit(net, dst, eps, dst);
    TimesOne(Product(net, w));
  }

  // ----- The greedy arm -----

  /** The neighbours not yet visited, in the order they are stored. */
  function Candidates(nbrs: seq<nat>, visited: seq<nat>): (r: seq<nat>)
    ensures forall x :: x in r <==> x in nbrs && x !in visited
    ensures forall i :: 0 <= i < |r| ==> r[i] in nbrs
  {
    if nbrs == [] then [] else
      var last := nbrs[|nbrs| - 1];
      var rest := Candidates(nbrs[..|nbrs| - 1], visited);
      if last in visited then rest else rest + [last]
  }

  /** Candidates come in the order of the neighbours, each kept or dropped on its own. */
  lemma {:induction false} CandidatesKeepOrder(a: seq<nat>, b: seq<nat>, visited: seq<nat>, x: nat)
    ensures Candidates(a + b, visited) == Candidates(a, visited) + Candidates(b, visited)
    ensures Candidates([x], visited) == if x in visited then [] else [x]
  {
    assert Candidates([x][..0], visited) == [];
    if b == [] {
      assert a + b == a;
    } else {
      assert (a + b)[..|a + b| - 1] == a + b[..|b| - 1];
      CandidatesKeepOrder(a, b[..|b| - 1], visited, x);
    }
  }

  function Offer(net: Network, v: seq<real>, u: nat, x: nat): real
    requires x < |v|
  {
    Times(net.Q(u, x), v[x])
  }

  /** The scores of the candidates, in their order. */
  function Offers(net: Network, v: seq<real>, u: nat, candidates: seq<nat>): (r: seq<real>)
    requires forall i :: 0 <= i < |candidates| ==> candidates[i] < |v|
    ensures |r| == |candidates| && forall i :: 0 <= i < |r| ==> r[i] == Offer(net, v, u, candidates[i])
  {
    seq(|candidates|, i requires 0 <= i < |candidates| => Offer(net, v, u, candidates[i]))
  }

  /** The best offer; among equals the last one, as the library's maximum picks. */
  function Greedy(net: Network, v: seq<real>, u: nat, candidates: seq<nat>): (x: nat)
    requires candidates != [] && forall i :: 0 <= i < |candidates| ==> candidates[i] < |v|
    ensures x in candidates
    ensures forall y :: y in candidates ==> Offer(net, v, u, y) <= Offer(net, v, u, x)
  {
    candidates[LastMaximum(Offers(net, v, u, candidates))]
  }

  predicate LinksAreLossy(net: Network) {
    net.Valid() && forall u, k :: 0 <= u < net.n && 0 <= k < |net.neighbours[u]| ==>
      0.0 < net.Q(u, net.neighbours[u][k]) < 1.0
  }

  /** A walk along which the value rises strictly once it is positive. */
  predicate Climbs(net: Network, v: seq<real>, w: seq<nat>) {
    && IsWalk(net, w) && |v| == net.n
    && forall i, k :: 0 <= i < k < |w| ==> v[w[i]] == 0.0 || v[w[i]] < v[w[k]]
  }

  lemma AppendClimbs(net: Network, v: seq<real>, w: seq<nat>, x: nat)
    requires Climbs(net, v, w) && x < net.n && x in net.neighbours[w[|w| - 1]]
    requires forall i :: 0 <= i < |w| ==> 0.0 <= v[w[i]]
    requires v[w[|w| - 1]] == 0.0 || v[w[|w| - 1]] < v[x]
    ensures Climbs(net, v, w + [x])
  {
    forall i, k | 0 <= i < k < |w + [x]| ensures v[(w + [x])[i]] == 0.0 || v[(w + [x])[i]] < v[(w + [x])[k]] {
      if k == |w| && i < |w| - 1 {
        assert v[w[i]] == 0.0 || v[w[i]] < v[w[|w| - 1]];
      }
    }
  }

  /** The unvisited neighbours of the end of a walk. */
  function Ahead(net: Network, w: seq<nat>): (r: seq<nat>)
    requires net.Valid() && IsWalk(net, w)
    ensures forall i :: 0 <= i < |r| ==> r[i] < net.n && r[i] in net.neighbours[w[|w| - 1]]
  {
    Candidates(net.neighbours[w[|w| - 1]], w)
  }

  /** What a visited neighbour offers is no more than the value it has been left for. */
  lemma VisitedOffersLess(net: Network, v: seq<real>, w: seq<nat>, u: nat, y: nat)
    requires net.Valid() && Climbs(net, v, w) && u == w[|w| - 1] && y in w && 0.0 <= v[y] && 0.0 < v[u]
    ensures y < net.n && Offer(net, v, u, y) <= v[u]
  {
    hide Times;
    var i :| 0 <= i < |w| && w[i] == y;
    TimesInUnit(net.Q(u, y), v[y]);
  }

  lemma SupportingOfferRaises(net: Network, v: seq<real>, u: nat, x: nat)
    requires LinksAreLossy(net) && |v| == net.n && u < net.n && x < net.n && x in net.neighbours[u]
    requires 0.0 < v[u] <= Offer(net, v, u, x)
    ensures v[u] < v[x]
  {
    hide Times;
    StrictlyLess(net.Q(u, x), v[x]);
  }

  /** Whatever the tolerance, at every node with a positive value the greedy hop
      gives up nothing, raises the value strictly, and is best among all
      neighbours: the visited filter has not hidden a better one. */
  lemma {:induction false} GreedyGivesUpNothing(net: Network, dst: nat, eps: real, w: seq<nat>, u: nat)
    requires LinksAreLossy(net) && 0.0 <= eps && dst < net.n
    requires var v := Values(net, dst, eps); Climbs(net, v, w) && u == w[|w| - 1] != dst && v[u] > 0.0
    ensures Ahead(net, w) != []
    ensures var v := Values(net, dst, eps); var x := Greedy(net, v, u, Ahead(net, w));
      && x < net.n && x in net.neighbours[u] && v[u] < v[x]
      && RawRegret(net, v, u, x) <= 0.0 && Charge(net, v, u, x) == 0.0
      && forall y :: y in net.neighbours[u] ==> y < net.n && Offer(net, v, u, y) <= Offer(net, v, u, x)
  {
    hide Times, Values, Product, Greedy;
    var v := Values(net, dst, eps);
    var best := OfferedNeighbour(net, dst, eps, u);
    SupportingOfferRaises(net, v, u, best);
    assert best in Ahead(net, w);
    var x := Greedy(net, v, u, Ahead(net, w));
    SupportingOfferRaises(net, v, u, x);
    forall y | y in net.neighbours[u] ensures y < net.n && Offer(net, v, u, y) <= Offer(net, v, u, x) {
      if y in w {
        ValuesInUnit(net, dst, eps, y);
        VisitedOffersLess(net, v, w, u, y);
      } else {
        assert y in Ahead(net, w);
      }
    }
  }

  /** At a node of value 0 there is nothing to give up. */
  lemma NothingToGiveUp(net: Network, dst: nat, eps: real, u: nat, x: nat)
    requires net.Valid() && 0.0 <= eps && dst < net.n && u < net.n && x < net.n && Values(net, dst, eps)[u] == 0.0
    ensures RawRegret(net, Values(net, dst, eps), u, x) <= 0.0 && Charge(net, Values(net, dst, eps), u, x) == 0.0
  {
    ValuesInUnit(net, dst, eps, x);
    TimesInUnit(net.Q(u, x), Values(net, dst, eps)[x]);
  }

  /** So the greedy hop is charged nothing at any node, and the walk goes on climbing. */
  lemma {:induction false} GreedyHopIsFree(net: Network, dst: nat, eps: real, w: seq<nat>)
    requires LinksAreLossy(net) && 0.0 <= eps && dst < net.n
    requires Climbs(net, Values(net, dst, eps), w) && w[|w| - 1] != dst && Ahead(net, w) != []
    ensures var v, u := Values(net, dst, eps), w[|w| - 1]; var x := Greedy(net, v, u, Ahead(net, w));
      && x < net.n && x in net.neighbours[u] && Climbs(net, v, w + [x])
      && RawRegret(net, v, u, x) <= 0.0 && Charge(net, v, u, x) == 0.0
  {
    hide Times, Values, Product, Greedy, Climbs, RawRegret, Charge;
    var v := Values(net, dst, eps);
    ClimbsIsWalk(net, v, w);
    var u := w[|w| - 1];
    forall i | 0 <= i < |w| ensures 0.0 <= v[w[i]] {
      ValuesInUnit(net, dst, eps, w[i]);
    }
    var x := Greedy(net, v, u, Ahead(net, w));
    if v[u] == 0.0 {
      NothingToGiveUp(net, dst, eps, u, x);
    } else {
      GreedyGivesUpNothing(net, dst, eps, w, u);
    }
    AppendClimbs(net, v, w, x);
  }

  lemma ClimbsIsWalk(net: Network, v: seq<real>, w: seq<nat>)
    requires Climbs(net, v, w)
    ensures IsWalk(net, w) && |v| == net.n
  {
  }

  /** The loop of the oracle arm without losses: extend the path greedily for at
      most `ttl` hops. */
  function Follow(net: Network, v: seq<real>, dst: nat, w: seq<nat>, ttl: nat): (r: seq<nat>)
    requires net.Valid() && |v| == net.n && IsWalk(net, w)
    ensures IsWalk(net, r) && w <= r
    decreases ttl
  {
    var u := w[|w| - 1];
    if ttl == 0 || u == dst || Ahead(net, w) == [] then w
    else Follow(net, v, dst, w + [Greedy(net, v, u, Ahead(net, w))], ttl - 1)
  }

  /** Where the arm stands: the value has climbed all the way, and no hop has lost
      any of it. */
  predicate OnCourse(net: Network, v: seq<real>, w: seq<nat>) {
    Climbs(net, v, w) && ReachedRegret(net, v, w, |w| - 1) <= 0.0
  }

  lemma {:induction false} HopStaysOnCourse(net: Network, dst: nat, eps: real, w: seq<nat>)
    requires LinksAreLossy(net) && 0.0 <= eps && dst < net.n
    requires OnCourse(net, Values(net, dst, eps), w) && w[|w| - 1] != dst && Ahead(net, w) != []
    ensures var v := Values(net, dst, eps); OnCourse(net, v, w + [Greedy(net, v, w[|w| - 1], Ahead(net, w))])
  {
    hide Times, Values, Product, Greedy, Candidates;
    var v, u := Values(net, dst, eps), w[|w| - 1];
    GreedyHopIsFree(net, dst, eps, w);
    NoRegretAdded(net, v, w, Greedy(net, v, u, Ahead(net, w)));
  }

  /** From any source, whatever prefix of its greedy path the arm covers stays on course. */
  lemma {:induction false} FollowStaysOnCourse(net: Network, dst: nat, eps: real, w: seq<nat>, ttl: nat)
    requires LinksAreLossy(net) && 0.0 <= eps && dst < net.n && OnCourse(net, Values(net, dst, eps), w)
    ensures OnCourse(net, Values(net, dst, eps), Follow(net, Values(net, dst, eps), dst, w, ttl))
    decreases ttl
  {
    hide Times, Values, Product, Greedy, Ahead, ReachedRegret;
    var v, u := Values(net, dst, eps), w[|w| - 1];
    if ttl != 0 && u != dst && Ahead(net, w) != [] {
      HopStaysOnCourse(net, dst, eps, w);
      FollowStaysOnCourse(net, dst, eps, w + [Greedy(net, v, u, Ahead(net, w))], ttl - 1);
    }
  }

  /** A walk that climbs from a positive value visits no node twice, keeps a
      positive value, and has met the destination once it is as long as the
      network is large. */
  lemma ClimbsFromPositive(net: Network, dst: nat, eps: real, w: seq<nat>)
    requires net.Valid() && 0.0 <= eps && dst < net.n
    requires Climbs(net, Values(net, dst, eps), w) && Values(net, dst, eps)[w[0]] > 0.0
    ensures Distinct(w) && |w| <= net.n && Values(net, dst, eps)[w[|w| - 1]] > 0.0
    ensures |w| == net.n ==> w[|w| - 1] == dst
  {
    var v := Values(net, dst, eps);
    hide Values;
    assert forall i :: 0 <= i < |w| ==> v[w[i]] >= v[w[0]];
    assert Distinct(w);
    Pigeonhole(w, net.n);
    if |w| == net.n {
      assert dst in w;
      var i :| 0 <= i < |w| && w[i] == dst;
      ValuesInUnit(net, dst, eps, w[|w| - 1]);
    }
  }

  /** From a positive value the arm stops only at the destination or at its limit. */
  lemma ArmGoesOn(net: Network, dst: nat, eps: real, w: seq<nat>)
    requires LinksAreLossy(net) && 0.0 <= eps && dst < net.n
    requires Climbs(net, Values(net, dst, eps), w) && Values(net, dst, eps)[w[0]] > 0.0
    ensures w[|w| - 1] != dst ==> Ahead(net, w) != []
  {
    hide Times, Values, Product, Greedy, Candidates;
    ClimbsFromPositive(net, dst, eps, w);
    if w[|w| - 1] != dst {
      GreedyGivesUpNothing(net, dst, eps, w, w[|w| - 1]);
    }
  }

  lemma {:induction false} FollowStops(net: Network, v: seq<real>, dst: nat, w: seq<nat>, ttl: nat)
    requires net.Valid() && |v| == net.n && IsWalk(net, w)
    ensures var r := Follow(net, v, dst, w, ttl);
      && |r| <= |w| + ttl
      && (r[|r| - 1] == dst || |r| == |w| + ttl || Ahead(net, r) == [])
    decreases ttl
  {
    hide Times, Greedy, Ahead;
    var u := w[|w| - 1];
    if ttl != 0 && u != dst && Ahead(net, w) != [] {
      FollowStops(net, v, dst, w + [Greedy(net, v, u, Ahead(net, w))], ttl - 1);
    }
  }

  /** A walk that has stopped stays the same under a larger limit. */
  lemma {:induction false} StoppedForGood(net: Network, v: seq<real>, dst: nat, w: seq<nat>, t: nat, ttl: nat)
    requires net.Valid() && |v| == net.n && IsWalk(net, w) && t <= ttl
    requires var r := Follow(net, v, dst, w, t); r[|r| - 1] == dst || Ahead(net, r) == [] || t == ttl
    ensures Follow(net, v, dst, w, ttl) == Follow(net, v, dst, w, t)
    decreases t
  {
    hide Times, Greedy, Ahead;
    var u := w[|w| - 1];
    if t != 0 && u != dst && Ahead(net, w) != [] {
      StoppedForGood(net, v, dst, w + [Greedy(net, v, u, Ahead(net, w))], t - 1, ttl - 1);
    }
  }

  lemma {:induction false} NoRegretAdded(net: Network, v: seq<real>, w: seq<nat>, x: nat)
    requires net.Valid() && w != [] && x < |v| && forall i :: 0 <= i < |w| ==> w[i] < |v|
    requires ReachedRegret(net, v, w, |w| - 1) <= 0.0 && RawRegret(net, v, w[|w| - 1], x) <= 0.0
    ensures ReachedRegret(net, v, w + [x], |w|) <= 0.0
  {
    hide Times;
    PrefixRegret(net, v, w, w + [x], |w| - 1);
    assert (w + [x])[..|w|] == w;
    ProductInUnit(net, w);
    TimesZero(Product(net, w));
    TimesMonotone(Product(net, w), RawRegret(net, v, w[|w| - 1], x), 0.0);
  }

  lemma {:induction false} PrefixRegret(net: Network, v: seq<real>, w: seq<nat>, s: seq<nat>, k: nat)
    requires k < |w| && w <= s && forall i :: 0 <= i < |s| ==> s[i] < |v|
    ensures ReachedRegret(net, v, w, k) == ReachedRegret(net, v, s, k)
  {
    hide Times;
    if k > 0 {
      PrefixRegret(net, v, w, s, k - 1);
      assert w[..k] == s[..k];
    }
  }

  /** `w` leads from `u` to the destination, is no worse than the value of `u`, and
      no walk of any length is better than `w` by more than n-1 tolerances. */
  ghost predicate NearBest(net: Network, dst: nat, eps: real, u: nat, w: seq<nat>)
    requires net.Valid() && u < net.n
  {
    && Networks.Joins(net, w, u, dst)
    && Values(net, dst, eps)[u] <= Product(net, w) <= Values(net, dst, eps)[u] + Slack(net.n - 1, eps)
    && forall s :: Networks.Joins(net, s, u, dst) ==> Product(net, s) <= Product(net, w) + Slack(net.n - 1, eps)
  }

  lemma {:induction false} CourseIsNearBest(net: Network, dst: nat, eps: real, w: seq<nat>)
    requires net.Valid() && 0.0 <= eps && dst < net.n
    requires OnCourse(net, Values(net, dst, eps), w) && w[|w| - 1] == dst
    ensures NearBest(net, dst, eps, w[0], w)
  {
    RegretIsShortfall(net, dst, eps, w);
    NearOptimal(net, dst, eps, w[0]);
  }

  /** For every tolerance: wherever it starts, a greedy walk that reaches the
      destination is within n-1 tolerances of the best walk; from any node with a
      positive value it does reach it, within n-1 hops and without repeats; and
      without a tolerance its product is the value. */
  lemma {:induction false} GreedyIsNearBest(net: Network, dst: nat, eps: real, src: nat, ttl: nat)
    requires LinksAreLossy(net) && 0.0 <= eps && dst < net.n && src < net.n
    ensures var v := Values(net, dst, eps); var r := Follow(net, v, dst, [src], ttl);
      && (r[|r| - 1] == dst ==> NearBest(net, dst, eps, src, r))
      && (r[|r| - 1] == dst && eps == 0.0 ==> Product(net, r) == v[src])
      && (v[src] > 0.0 ==> Distinct(r) && |r| - 1 <= net.n - 1)
      && (v[src] > 0.0 && net.n - 1 <= ttl ==> r[|r| - 1] == dst)
  {
    hide Times, Values, Product, Follow, Slack;
    var v := Values(net, dst, eps);
    assert OnCourse(net, v, [src]);
    hide ReachedRegret, Climbs;
    FollowStaysOnCourse(net, dst, eps, [src], ttl);
    FollowStops(net, v, dst, [src], ttl);
    var r := Follow(net, v, dst, [src], ttl);
    NoSlack(net.n - 1);
    if r[|r| - 1] == dst {
      CourseIsNearBest(net, dst, eps, r);
    }
    if v[src] > 0.0 {
      assert r[0] == src;
      ClimbsFromPositive(net, dst, eps, r);
      ArmGoesOn(net, dst, eps, r);
    }
  }
}
