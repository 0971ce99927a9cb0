/** The benchmark's optimum: max-product value iteration swept in place, with a
    tolerance and an early exit, against the best walk of any length. */
module OracleValues {
  import opened Finite
  import opened Networks
  import opened Reals

  /** The tolerance of the shipped comparison. */
  const TOLERANCE := 0.000000000001

  /** The best continuation through the first `k` neighbours of `u`. */
  function BestOver(net: Network, v: seq<real>, u: nat, k: nat): real
    requires net.Valid() && |v| == net.n && u < net.n && k <= |net.neighbours[u]|
  {
    if k == 0 then 0.0
    else Max(BestOver(net, v, u, k - 1), Times(net.Q(u, net.neighbours[u][k - 1]), v[net.neighbours[u][k - 1]]))
  }

  function Best(net: Network, v: seq<real>, u: nat): real
    requires net.Valid() && |v| == net.n && u < net.n
  {
    BestOver(net, v, u, |net.neighbours[u]|)
  }

  function Initial(n: nat, dst: nat): (r: seq<real>)
    ensures |r| == n
  {
    seq(n, u => if u == dst then 1.0 else 0.0)
  }

  /** One node's turn within a sweep. */
  function Improve(net: Network, dst: nat, eps: real, v: seq<real>, u: nat): (r: seq<real>)
    requires net.Valid() && |v| == net.n && u < net.n
    ensures |r| == net.n
  {
    if u != dst && Best(net, v, u) > v[u] + eps then v[u := Best(net, v, u)] else v
  }

  /** The values once the nodes below `k` have had their turn. */
  function Sweep(net: Network, dst: nat, eps: real, v: seq<real>, k: nat): (r: seq<real>)
    requires net.Valid() && |v| == net.n && k <= net.n
    ensures |r| == net.n
  {
    if k == 0 then v else Improve(net, dst, eps, Sweep(net, dst, eps, v, k - 1), k - 1)
  }

  function Sweeps(net: Network, dst: nat, eps: real, rounds: nat): (r: seq<real>)
    requires net.Valid()
    ensures |r| == net.n
  {
    if rounds == 0 then Initial(net.n, dst) else Sweep(net, dst, eps, Sweeps(net, dst, eps, rounds - 1), net.n)
  }

  lemma {:induction false} BestIsUpperBound(net: Network, v: seq<real>, u: nat, k: nat, x: nat)
    requires net.Valid() && |v| == net.n && u < net.n && k <= |net.neighbours[u]| && x in net.neighbours[u][..k]
    ensures x < net.n && Times(net.Q(u, x), v[x]) <= BestOver(net, v, u, k)
  {
    hide Times;
    if k > 0 && x != net.neighbours[u][k - 1] {
      assert net.neighbours[u][..k] == net.neighbours[u][..k - 1] + [net.neighbours[u][k - 1]];
      BestIsUpperBound(net, v, u, k - 1, x);
    }
  }

  lemma {:induction false} BestIsAttained(net: Network, v: seq<real>, u: nat, k: nat) returns (x: nat)
    requires net.Valid() && |v| == net.n && u < net.n && k <= |net.neighbours[u]| && BestOver(net, v, u, k) > 0.0
    ensures x < net.n && x in net.neighbours[u][..k] && BestOver(net, v, u, k) == Times(net.Q(u, x), v[x])
  {
    var last := net.neighbours[u][k - 1];
    assert net.neighbours[u][..k] == net.neighbours[u][..k - 1] + [last];
    if BestOver(net, v, u, k) == net.Q(u, last) * v[last] {
      x := last;
    } else {
      x := BestIsAttained(net, v, u, k - 1);
    }
  }

  // ----- Every value is 0 or the product of a real walk -----

  ghost predicate Attained(net: Network, dst: nat, u: nat, value: real) {
    value == 0.0 || (value >= 0.0 && exists w :: Networks.Joins(net, w, u, dst) && Product(net, w) == value)
  }

  ghost predicate AllAttained(net: Network, dst: nat, v: seq<real>) {
    |v| == net.n && forall u :: 0 <= u < net.n ==> Attained(net, dst, u, v[u])
  }

  lemma {:induction false} ExtendWalk(net: Network, u: nat, w: seq<nat>, dst: nat)
    requires net.Valid() && u < net.n && IsWalk(net, w) && w[|w| - 1] == dst && w[0] in net.neighbours[u]
    ensures Networks.Joins(net, [u] + w, u, dst) && Product(net, [u] + w) == Times(net.Q(u, w[0]), Product(net, w))
  {
    hide Times;
    var s := [u] + w;
    assert s[1..] == w;
    forall i | 0 <= i < |s| - 1 ensures s[i + 1] in net.neighbours[s[i]] {
      if i > 0 {
        assert s[i + 1] == w[i] && s[i] == w[i - 1];
      }
    }
  }

  lemma ImproveIsAttained(net: Network, dst: nat, eps: real, v: seq<real>, u: nat)
    requires net.Valid() && 0.0 <= eps && u < net.n && AllAttained(net, dst, v)
    ensures AllAttained(net, dst, Improve(net, dst, eps, v, u))
  {
    hide Times;
    if u != dst && Best(net, v, u) > v[u] + eps {
      var x := BestIsAttained(net, v, u, |net.neighbours[u]|);
      assert x in net.neighbours[u];
      TimesZero(net.Q(u, x));
      assert Attained(net, dst, x, v[x]) && v[x] != 0.0;
      var w :| Networks.Joins(net, w, x, dst) && Product(net, w) == v[x];
      ExtendWalk(net, u, w, dst);
      ProductInUnit(net, [u] + w);
      assert Attained(net, dst, u, Best(net, v, u));
    }
  }

  lemma {:induction false} SweepIsAttained(net: Network, dst: nat, eps: real, v: seq<real>, k: nat)
    requires net.Valid() && 0.0 <= eps && k <= net.n && AllAttained(net, dst, v)
    ensures AllAttained(net, dst, Sweep(net, dst, eps, v, k))
  {
    hide Times;
    if k > 0 {
      SweepIsAttained(net, dst, eps, v, k - 1);
      ImproveIsAttained(net, dst, eps, Sweep(net, dst, eps, v, k - 1), k - 1);
    }
  }

  lemma {:induction false} SweepsAreAttained(net: Network, dst: nat, eps: real, rounds: nat)
    requires net.Valid() && 0.0 <= eps
    ensures AllAttained(net, dst, Sweeps(net, dst, eps, rounds))
  {
    hide Times;
    if rounds == 0 {
      forall u: nat | u < net.n ensures Attained(net, dst, u, Initial(net.n, dst)[u]) {
        if u == dst {
          assert Networks.Joins(net, [dst], dst, dst) && Product(net, [dst]) == 1.0;
        }
      }
    } else {
      SweepsAreAttained(net, dst, eps, rounds - 1);
      SweepIsAttained(net, dst, eps, Sweeps(net, dst, eps, rounds - 1), net.n);
    }
  }

  // ----- Every positive value is offered by a neighbour -----

  /** Some neighbour offers `u` at least its value. */
  ghost predicate IsOffered(net: Network, v: seq<real>, u: nat)
    requires u < |v| == |net.neighbours|
  {
    exists x :: x in net.neighbours[u] && x < |v| && v[u] <= Times(net.Q(u, x), v[x])
  }

  /** Values are not negative, and a positive one away from the destination is
      never more than what some neighbour offers now. */
  ghost predicate Supported(net: Network, dst: nat, v: seq<real>)
    requires |net.neighbours| == |v|
  {
    forall u :: 0 <= u < |v| ==> 0.0 <= v[u] && (u != dst && 0.0 < v[u] ==> IsOffered(net, v, u))
  }

  lemma ImproveIsSupported(net: Network, dst: nat, eps: real, v: seq<real>, u: nat)
    requires net.Valid() && 0.0 <= eps && |v| == net.n && u < net.n && Supported(net, dst, v)
    ensures Supported(net, dst, Improve(net, dst, eps, v, u))
  {
    hide Times;
    var after := Improve(net, dst, eps, v, u);
    if u != dst && Best(net, v, u) > v[u] + eps {
      var best := BestIsAttained(net, v, u, |net.neighbours[u]|);
      forall y | 0 <= y < net.n && y != dst && 0.0 < after[y] ensures IsOffered(net, after, y) {
        var x := best;
        if y != u {
          assert IsOffered(net, v, y);
          x :| x in net.neighbours[y] && x < net.n && v[y] <= Times(net.Q(y, x), v[x]);
        }
        TimesMonotone(net.Q(y, x), v[x], after[x]);
      }
    }
  }

  lemma {:induction false} SweepIsSupported(net: Network, dst: nat, eps: real, v: seq<real>, k: nat)
    requires net.Valid() && 0.0 <= eps && |v| == net.n && k <= net.n && Supported(net, dst, v)
    ensures Supported(net, dst, Sweep(net, dst, eps, v, k))
  {
    hide Times, Supported;
    if k > 0 {
      SweepIsSupported(net, dst, eps, v, k - 1);
      ImproveIsSupported(net, dst, eps, Sweep(net, dst, eps, v, k - 1), k - 1);
    }
  }

  lemma {:induction false} SweepsAreSupported(net: Network, dst: nat, eps: real, rounds: nat)
    requires net.Valid() && 0.0 <= eps
    ensures Supported(net, dst, Sweeps(net, dst, eps, rounds))
  {
    hide Times;
    if rounds > 0 {
      SweepsAreSupported(net, dst, eps, rounds - 1);
      SweepIsSupported(net, dst, eps, Sweeps(net, dst, eps, rounds - 1), net.n);
    }
  }

  // ----- No walk beats a value by more than the accumulated tolerance -----

  /** `better` is no lower than `worse` anywhere. */
  predicate Above(better: seq<real>, worse: seq<real>) {
    |better| == |worse| && forall u :: 0 <= u < |worse| ==> worse[u] <= better[u]
  }

  lemma {:induction false} SweepRises(net: Network, dst: nat, eps: real, v: seq<real>, i: nat, k: nat)
    requires net.Valid() && 0.0 <= eps && |v| == net.n && i <= k <= net.n
    ensures Above(Sweep(net, dst, eps, v, k), Sweep(net, dst, eps, v, i))
    ensures dst < net.n ==> Sweep(net, dst, eps, v, k)[dst] == v[dst]
    decreases k
  {
    hide Times;
    if k > 0 {
      SweepRises(net, dst, eps, v, if i < k then i else i - 1, k - 1);
    }
  }

  lemma {:induction false} SweepsRise(net: Network, dst: nat, eps: real, i: nat, k: nat)
    requires net.Valid() && 0.0 <= eps && dst < net.n && i <= k
    ensures Above(Sweeps(net, dst, eps, k), Sweeps(net, dst, eps, i))
    ensures Sweeps(net, dst, eps, k)[dst] == 1.0
    decreases k
  {
    hide Times;
    if k > 0 {
      SweepRises(net, dst, eps, Sweeps(net, dst, eps, k - 1), 0, net.n);
      SweepsRise(net, dst, eps, if i < k then i else i - 1, k - 1);
    }
  }

  /** A sweep brings every node within the tolerance of each neighbour's offer
      as it stood when the sweep began. */
  lemma {:induction false} SweepTakesOffers(net: Network, dst: nat, eps: real, v: seq<real>, u: nat, x: nat)
    requires net.Valid() && 0.0 <= eps && |v| == net.n && u < net.n && u != dst && x in net.neighbours[u]
    ensures x < net.n && Times(net.Q(u, x), v[x]) <= Sweep(net, dst, eps, v, net.n)[u] + eps
  {
    hide Times;
    var seen := Sweep(net, dst, eps, v, u);
    assert net.neighbours[u][..|net.neighbours[u]|] == net.neighbours[u];
    BestIsUpperBound(net, seen, u, |net.neighbours[u]|, x);
    SweepRises(net, dst, eps, v, 0, u);
    TimesMonotone(net.Q(u, x), v[x], seen[x]);
    SweepRises(net, dst, eps, v, u + 1, net.n);
  }

  /** `hops` times the tolerance. */
  function Slack(hops: nat, eps: real): real {
    Times(eps, hops as real)
  }

  lemma OneMoreHop(hops: nat, eps: real)
    requires 0.0 <= eps
    ensures 0.0 <= Slack(hops, eps) && Slack(hops + 1, eps) == Slack(hops, eps) + eps
  {
  }

  /** After `rounds` sweeps no walk of at most that many hops is ahead by more
      than one tolerance per hop. */
  lemma {:induction false} WalkIsMatched(net: Network, dst: nat, eps: real, rounds: nat, w: seq<nat>)
    requires net.Valid() && 0.0 <= eps && dst < net.n && IsWalk(net, w) && w[|w| - 1] == dst && |w| - 1 <= rounds
    ensures Product(net, w) <= Sweeps(net, dst, eps, rounds)[w[0]] + Slack(|w| - 1, eps)
    decreases rounds
  {
    hide Times;
    ProductInUnit(net, w);
    OneMoreHop(|w| - 1, eps);
    var u := w[0];
    if u == dst {
      SweepsRise(net, dst, eps, 0, rounds);
    } else {
      OneMoreHop(|w| - 2, eps);
      var x, before := w[1], Sweeps(net, dst, eps, rounds - 1);
      WalkTail(net, w);
      WalkIsMatched(net, dst, eps, rounds - 1, w[1..]);
      SweepTakesOffers(net, dst, eps, before, u, x);
      ChargeOneHop(net.Q(u, x), Product(net, w[1..]), before[x], Slack(|w| - 2, eps));
    }
  }

  lemma ChargeOneHop(q: real, product: real, value: real, slack: real)
    requires 0.0 <= q <= 1.0 && 0.0 <= slack && product <= value + slack
    ensures Times(q, product) <= Times(q, value) + slack
  {
    TimesMonotone(q, product, value + slack);
    assert Times(q, value + slack) == Times(q, value) + Times(q, slack);
    TimesInUnit(q, slack);
  }

  /** What the method returns, for every tolerance and probabilities in [0,1]:
      each value is 0 or the product along a real walk, and no walk of any
      length beats it by more than n-1 tolerances. */
  lemma {:induction false} NearOptimal(net: Network, dst: nat, eps: real, u: nat)
    requires net.Valid() && 0.0 <= eps && dst < net.n && u < net.n
    ensures Attained(net, dst, u, Sweeps(net, dst, eps, net.n)[u])
    ensures forall w :: Networks.Joins(net, w, u, dst) ==>
      Product(net, w) <= Sweeps(net, dst, eps, net.n)[u] + Slack(net.n - 1, eps)
  {
    hide Times;
    SweepsAreAttained(net, dst, eps, net.n);
    forall w | Networks.Joins(net, w, u, dst)
      ensures Product(net, w) <= Sweeps(net, dst, eps, net.n)[u] + Slack(net.n - 1, eps)
    {
      var s := Simplify(net, w);
      WalkIsMatched(net, dst, eps, net.n, s);
      TimesMonotone(eps, (|s| - 1) as real, (net.n - 1) as real);
    }
  }

  // ----- n-1 sweeps are enough -----

  /** Within a sweep a node's value can change only at its own turn. */
  lemma {:induction false} OnlyOwnTurn(net: Network, dst: nat, eps: real, v: seq<real>, x: nat, k: nat)
    requires net.Valid() && |v| == net.n && x < net.n && k <= net.n
    ensures k <= x ==> Sweep(net, dst, eps, v, k)[x] == v[x]
    ensures k > x ==> Sweep(net, dst, eps, v, k)[x] == Sweep(net, dst, eps, v, x + 1)[x]
  {
    hide Times;
    if k > 0 && k != x + 1 {
      OnlyOwnTurn(net, dst, eps, v, x, k - 1);
    }
  }

  /** `u` changes at its turn in the sweep that follows `rounds` sweeps. */
  predicate Changes(net: Network, dst: nat, eps: real, rounds: nat, u: nat)
    requires net.Valid() && u < net.n
  {
    Sweep(net, dst, eps, Sweeps(net, dst, eps, rounds), u + 1)[u] != Sweeps(net, dst, eps, rounds)[u]
  }

  /** Distinct nodes other than the destination, none with a value below that of `u`. */
  predicate IsChain(net: Network, dst: nat, v: seq<real>, u: nat, c: seq<nat>) {
    && Distinct(c) && dst !in c && u < |v| == net.n
    && forall i :: 0 <= i < |c| ==> c[i] < net.n && v[u] <= v[c[i]]
  }

  /** A change is prompted by a neighbour that has changed since the node's
      previous turn. */
  lemma ChangePrompted(net: Network, dst: nat, eps: real, rounds: nat, u: nat) returns (x: nat)
    requires net.Valid() && 0.0 <= eps && dst < net.n && u < net.n && Changes(net, dst, eps, rounds, u)
    ensures u != dst && x < net.n && x != u
    ensures var now := Sweep(net, dst, eps, Sweeps(net, dst, eps, rounds), u);
      && now[u] < Best(net, now, u) && Best(net, now, u) == Times(net.Q(u, x), now[x])
      && Sweep(net, dst, eps, Sweeps(net, dst, eps, rounds), u + 1) == now[u := Best(net, now, u)]
    ensures rounds > 0 ==> if x < u then Changes(net, dst, eps, rounds, x) else Changes(net, dst, eps, rounds - 1, x)
  {
    hide Times, BestOver;
    var start := Sweeps(net, dst, eps, rounds);
    var now := Sweep(net, dst, eps, start, u);
    OnlyOwnTurn(net, dst, eps, start, u, u);
    SweepsAreSupported(net, dst, eps, rounds);
    x := BestIsAttained(net, now, u, |net.neighbours[u]|);
    TimesInUnit(net.Q(u, x), now[x]) by {
      SweepIsSupported(net, dst, eps, start, u);
    }
    if rounds > 0 {
      Stale(net, dst, eps, rounds, u, x);
    }
  }

  /** What a neighbour offered at the previous turn prompts no change. */
  lemma {:induction false} Stale(net: Network, dst: nat, eps: real, rounds: nat, u: nat, x: nat)
    requires net.Valid() && 0.0 <= eps && u < net.n && u != dst && x in net.neighbours[u] && x < net.n && x != u
      && rounds > 0
    requires var now := Sweep(net, dst, eps, Sweeps(net, dst, eps, rounds), u);
      now[u] + eps < Times(net.Q(u, x), now[x])
    ensures if x < u then Changes(net, dst, eps, rounds, x) else Changes(net, dst, eps, rounds - 1, x)
  {
    hide Times, BestOver;
    var before, start := Sweeps(net, dst, eps, rounds - 1), Sweeps(net, dst, eps, rounds);
    var earlier := Sweep(net, dst, eps, before, u);
    assert net.neighbours[u][..|net.neighbours[u]|] == net.neighbours[u];
    BestIsUpperBound(net, earlier, u, |net.neighbours[u]|, x);
    assert Times(net.Q(u, x), earlier[x]) <= Sweep(net, dst, eps, before, u + 1)[u] + eps;
    OnlyOwnTurn(net, dst, eps, before, u, net.n);
    OnlyOwnTurn(net, dst, eps, start, u, u);
    OnlyOwnTurn(net, dst, eps, before, x, u);
    OnlyOwnTurn(net, dst, eps, before, x, net.n);
    OnlyOwnTurn(net, dst, eps, start, x, u);
  }

  /** A change after `rounds` sweeps ends a chain of more than `rounds` changes: each
      was prompted by the next, so values rise along the chain and no node recurs. */
  lemma {:induction false} ChangeHasChain(net: Network, dst: nat, eps: real, rounds: nat, u: nat) returns (c: seq<nat>)
    requires net.Valid() && 0.0 <= eps && dst < net.n && u < net.n && Changes(net, dst, eps, rounds, u)
    ensures |c| == rounds + 1
    ensures IsChain(net, dst, Sweep(net, dst, eps, Sweeps(net, dst, eps, rounds), u + 1), u, c)
    decreases rounds, u
  {
    hide Times, BestOver, Changes, Improve;
    var start := Sweeps(net, dst, eps, rounds);
    var now := Sweep(net, dst, eps, start, u);
    var x := ChangePrompted(net, dst, eps, rounds, u);
    c := [u];
    if rounds > 0 {
      var longer, since: seq<real>;
      if x < u {
        longer := ChangeHasChain(net, dst, eps, rounds, x);
        since := Sweep(net, dst, eps, start, x + 1);
        SweepRises(net, dst, eps, start, x + 1, u);
        OnlyOwnTurn(net, dst, eps, start, x, u);
        longer := longer[..rounds];
      } else {
        var before := Sweeps(net, dst, eps, rounds - 1);
        longer := ChangeHasChain(net, dst, eps, rounds - 1, x);
        since := Sweep(net, dst, eps, before, x + 1);
        SweepRises(net, dst, eps, before, x + 1, net.n);
        SweepRises(net, dst, eps, start, 0, u);
        OnlyOwnTurn(net, dst, eps, before, x, net.n);
        OnlyOwnTurn(net, dst, eps, start, x, u);
      }
      assert now[x] == since[x] && Above(now, since);
      OfferWithinValue(net, dst, eps, rounds, u, x);
      c := [u] + longer;
    }
  }

  lemma {:induction false} OfferWithinValue(net: Network, dst: nat, eps: real, rounds: nat, u: nat, x: nat)
    requires net.Valid() && 0.0 <= eps && u < net.n && x < net.n
    ensures var now := Sweep(net, dst, eps, Sweeps(net, dst, eps, rounds), u); Times(net.Q(u, x), now[x]) <= now[x]
  {
    hide Times;
    SweepsAreSupported(net, dst, eps, rounds);
    SweepIsSupported(net, dst, eps, Sweeps(net, dst, eps, rounds), u);
    TimesInUnit(net.Q(u, x), Sweep(net, dst, eps, Sweeps(net, dst, eps, rounds), u)[x]);
  }

  /** For every valid network and tolerance, n-1 sweeps reach the fixed point: the
      n-th sweep changes nothing. */
  lemma {:induction false} SweepsConverge(net: Network, dst: nat, eps: real)
    requires net.Valid() && 0.0 <= eps && dst < net.n
    ensures Sweep(net, dst, eps, Sweeps(net, dst, eps, net.n - 1), net.n) == Sweeps(net, dst, eps, net.n - 1)
    ensures Sweeps(net, dst, eps, net.n) == Sweeps(net, dst, eps, net.n - 1)
  {
    hide Times, Improve;
    var v := Sweeps(net, dst, eps, net.n - 1);
    forall u: nat | u < net.n ensures Sweep(net, dst, eps, v, net.n)[u] == v[u] {
      OnlyOwnTurn(net, dst, eps, v, u, net.n);
      if Changes(net, dst, eps, net.n - 1, u) {
        var c := ChangeHasChain(net, dst, eps, net.n - 1, u);
        Pigeonhole(c, net.n);
      }
    }
  }

  /** At the fixed point no continuation is more than one tolerance ahead. */
  lemma {:induction false} NothingAhead(net: Network, dst: nat, eps: real, u: nat)
    requires net.Valid() && 0.0 <= eps && dst < net.n && u < net.n && u != dst
    ensures var v := Sweeps(net, dst, eps, net.n); Best(net, v, u) <= v[u] + eps
  {
    hide Times, BestOver;
    var v := Sweeps(net, dst, eps, net.n);
    SweepsConverge(net, dst, eps);
    SweepRises(net, dst, eps, v, 0, u);
    SweepRises(net, dst, eps, v, u, net.n);
    assert Sweep(net, dst, eps, v, u) == v;
    OnlyOwnTurn(net, dst, eps, v, u, net.n);
    assert Improve(net, dst, eps, v, u)[u] == v[u];
  }

  // ----- The method -----

  /** Once a sweep changes nothing, neither do the remaining ones. */
  lemma {:induction false} StopEarly(net: Network, dst: nat, eps: real, done: nat, rounds: nat)
    requires net.Valid() && done <= rounds
    requires Sweep(net, dst, eps, Sweeps(net, dst, eps, done), net.n) == Sweeps(net, dst, eps, done)
    ensures Sweeps(net, dst, eps, rounds) == Sweeps(net, dst, eps, done)
    decreases rounds
  {
    hide Times;
    if done < rounds {
      StopEarly(net, dst, eps, done, rounds - 1);
    }
  }

  /** The best continuation from `u` as the values stand. */
  method BestOffer(net: Network, v: array<real>, u: nat) returns (best: real)
    requires net.Valid() && v.Length == net.n && u < net.n
    ensures best == Best(net, v[..], u)
  {
    hide Times;
    best := 0.0;
    for k := 0 to |net.neighbours[u]|
      invariant best == BestOver(net, v[..], u, k)
    {
      var w := net.neighbours[u][k];
      best := Max(best, Times(net.Q(u, w), v[w]));
    }
  }

  /** One sweep over the nodes, in place. */
  method SweepOnce(net: Network, dst: nat, eps: real, v: array<real>) returns (changed: bool)
    requires net.Valid() && v.Length == net.n && dst < net.n
    modifies v
    ensures v[..] == Sweep(net, dst, eps, old(v[..]), net.n)
    ensures !changed ==> v[..] == old(v[..])
  {
    hide Times, BestOver;
    changed := false;
    ghost var start := v[..];
    var u := 0;
    while u < net.n
      invariant u <= net.n
      invariant v[..] == Sweep(net, dst, eps, start, u)
      invariant !changed ==> v[..] == start
    {
      u := u + 1;
      if u - 1 == dst {
        continue;
      }
      var best := BestOffer(net, v, u - 1);
      if best > v[u - 1] + eps {
        v[u - 1] := best;
        changed := true;
      }
    }
  }

  method ComputeOracleValues(net: Network, dst: nat, eps: real) returns (v: array<real>)
    requires net.Valid() && dst < net.n
    ensures fresh(v) && v[..] == Sweeps(net, dst, eps, net.n)
  {
    hide Times, BestOver;
    v := new real[net.n](_ => 0.0);
    v[dst] := 1.0;
    assert v[..] == Initial(net.n, dst);
    var round := 0;
    while round < net.n
      invariant round <= net.n
      invariant v[..] == Sweeps(net, dst, eps, round)
    {
      var changed := SweepOnce(net, dst, eps, v);
      if !changed {
        StopEarly(net, dst, eps, round, net.n);
        return;
      }
      round := round + 1;
    }
  }
}
