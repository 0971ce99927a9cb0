/** Routing one message through the static benchmark. */
module Benchmark {
  import opened Finite
  import opened Networks
  import opened OracleValues
  import opened Orders
  import opened Regret
  import opened QRouting
  import opened Reals

  const TTL := 12

  /** The arms the model distinguishes: the two that decide from the modelled
      state, and any other, which picks some candidate. */
  datatype Arm = OracleArm | QRoutingArm(epsilon: real) | OtherArm

  class Outcome {
    var delivered: nat
    var total: nat
    var hops: nat
    var latencyMs: real
    var transmissions: nat
    var regret: real

    constructor (total: nat)
      ensures this.total == total && delivered == 0 && hops == 0 && latencyMs == 0.0
      ensures transmissions == 0 && regret == 0.0
    {
      this.total := total;
      delivered, hops, latencyMs, transmissions, regret := 0, 0, 0.0, 0, 0.0;
    }
  }

  /** The charges for the first `k` hops of a trip. */
  function Charges(net: Network, v: seq<real>, trip: seq<nat>, k: nat): real
    requires k < |trip| && forall i :: 0 <= i < |trip| ==> trip[i] < |v|
  {
    if k == 0 then 0.0 else Charges(net, v, trip, k - 1) + Charge(net, v, trip[k - 1], trip[k])
  }

  function TripLatency(net: Network, trip: seq<nat>, k: nat): real
    requires k < |trip|
  {
    if k == 0 then 0.0 else TripLatency(net, trip, k - 1) + net.Latency(trip[k - 1], trip[k])
  }

  lemma {:induction false} ChargesOfPrefix(net: Network, v: seq<real>, s: seq<nat>, t: seq<nat>, k: nat)
    requires k < |s| && s <= t && forall i :: 0 <= i < |t| ==> t[i] < |v|
    ensures Charges(net, v, s, k) == Charges(net, v, t, k)
    ensures TripLatency(net, s, k) == TripLatency(net, t, k)
  {
    if k > 0 {
      ChargesOfPrefix(net, v, s, t, k - 1);
    }
  }

  /** The charge and latency of one more hop. */
  lemma {:induction false} ChargeNext(net: Network, v: seq<real>, trip: seq<nat>, next: nat)
    requires trip != [] && next < |v| && forall i :: 0 <= i < |trip| ==> trip[i] < |v|
    ensures var longer, last, k := trip + [next], trip[|trip| - 1], |trip| - 1;
      && Charges(net, v, longer, k + 1) == Charges(net, v, trip, k) + Charge(net, v, last, next)
      && TripLatency(net, longer, k + 1) == TripLatency(net, trip, k) + net.Latency(last, next)
  {
    ChargesOfPrefix(net, v, trip, trip + [next], |trip| - 1);
  }

  /** What a trip is charged and how long it takes are sums over its parts. */
  lemma {:induction false} TripSplits(net: Network, v: seq<real>, trip: seq<nat>, i: nat, k: nat)
    requires i <= k < |trip| && forall x :: 0 <= x < |trip| ==> trip[x] < |v|
    ensures Charges(net, v, trip, k) == Charges(net, v, trip, i) + Charges(net, v, trip[i..], k - i)
    ensures TripLatency(net, trip, k) == TripLatency(net, trip, i) + TripLatency(net, trip[i..], k - i)
  {
    if i < k {
      TripSplits(net, v, trip, i, k - 1);
    }
  }

  /** One hop takes what its link is labelled with, and is charged what it gives up
      of the value, never less than nothing. */
  lemma {:induction false} HopCosts(net: Network, v: seq<real>, u: nat, x: nat)
    requires u < |v| && x < |v| && (u, x) in net.latency && (u, x) in net.quality
    ensures TripLatency(net, [u, x], 1) == net.latency[(u, x)]
    ensures var lost := v[u] - Times(net.quality[(u, x)], v[x]);
      Charges(net, v, [u, x], 1) == if lost > 0.0 then lost else 0.0
  {
    assert TripLatency(net, [u, x], 0) == 0.0 && Charges(net, v, [u, x], 0) == 0.0;
  }

  /** The decisions of a trip: every hop arrived except possibly the last. */
  function Decisions(dst: nat, trip: seq<nat>, lost: bool): (r: seq<Hop>)
    requires trip != []
    ensures |r| == |trip| - 1
  {
    seq(|trip| - 1, i requires 0 <= i < |trip| - 1 => Hop(trip[i], dst, trip[i + 1], !(lost && i == |trip| - 2)))
  }

  /** A trip that never reaches the destination before its end. */
  predicate IsTrip(net: Network, dst: nat, trip: seq<nat>) {
    IsWalk(net, trip) && forall i :: 0 <= i < |trip| - 1 ==> trip[i] != dst
  }

  /** What `out` and `tables` become through a trip. */
  ghost predicate Recorded(net: Network, dst: nat, eps: real, trip: seq<nat>, lost: bool,
    before: (nat, nat, real, nat, real), after: (nat, nat, real, nat, real))
    requires net.Valid() && IsWalk(net, trip)
  {
    var arrived := !lost && trip[|trip| - 1] == dst && |trip| > 1;
    && after.0 == before.0 + (if arrived then 1 else 0)
    && after.1 == before.1 + (if arrived then |trip| - 1 else 0)
    && after.2 == before.2 + (if arrived then TripLatency(net, trip, |trip| - 1) else 0.0)
    && after.3 == before.3 + |trip| - 1
    && after.4 == before.4 + Charges(net, Values(net, dst, eps), trip, |trip| - 1)
  }

  ghost function Totals(out: Outcome): (nat, nat, real, nat, real)
    reads out
  {
    (out.delivered, out.hops, out.latencyMs, out.transmissions, out.regret)
  }

  /** The estimates of the candidates, in their order. */
  function Estimates(q: Table<nat>, init: real, dst: nat, candidates: seq<nat>): (r: seq<real>)
    ensures |r| == |candidates| && forall i :: 0 <= i < |r| ==> r[i] == Estimate(q, init, dst, candidates[i])
  {
    seq(|candidates|, i requires 0 <= i < |candidates| => Estimate(q, init, dst, candidates[i]))
  }

  /** `next` is the last of the candidates with the highest score. */
  ghost predicate IsLastBest(candidates: seq<nat>, scores: seq<real>, next: nat) {
    && |scores| == |candidates|
    && exists k ::
      && 0 <= k < |candidates| && candidates[k] == next
      && (forall i :: 0 <= i < |scores| ==> scores[i] <= scores[k])
      && (forall i :: k < i < |scores| ==> scores[i] < scores[k])
  }

  /** `coin` decides whether Q-routing takes a random candidate instead of the best. */
  method PickNext(net: Network, values: seq<real>, arm: Arm, dst: nat, path: seq<nat>, qt: QTables)
    returns (next: nat, coin: real)
    requires net.Valid() && |values| == |qt.tables| == net.n && IsWalk(net, path) && Ahead(net, path) != []
    ensures next in Ahead(net, path) && next < net.n && next in net.neighbours[path[|path| - 1]] && next !in path
    ensures var current, candidates := path[|path| - 1], Ahead(net, path);
      && (arm.OracleArm? ==> next == Greedy(net, values, current, candidates))
      && (arm.OracleArm? ==> IsLastBest(candidates, Offers(net, values, current, candidates), next))
      && (arm.QRoutingArm? && coin >= arm.epsilon ==>
            IsLastBest(candidates, Estimates(qt.tables[current], qt.init, dst, candidates), next))
    ensures 0.0 <= coin < 1.0
  {
    var current, candidates := path[|path| - 1], Ahead(net, path);
    coin :| 0.0 <= coin < 1.0;
    var k: nat;
    match arm {
      case OracleArm =>
        k := LastMaximum(Offers(net, values, current, candidates));
      case QRoutingArm(epsilon) =>
        if coin < epsilon {
          k :| k < |candidates|;
        } else {
          k := LastMaximum(Estimates(qt.tables[current], qt.init, dst, candidates));
        }
      case OtherArm =>
        k :| k < |candidates|;
    }
    next := candidates[k];
  }

  method OracleTable(net: Network, dst: nat, eps: real) returns (values: seq<real>)
    requires net.Valid() && dst < net.n
    ensures values == Values(net, dst, eps)
  {
    var v := ComputeOracleValues(net, dst, eps);
    values := v[..];
  }

  /** One decision: pick, charge, transmit and, for Q-routing, learn. */
  method Decide(net: Network, values: seq<real>, arm: Arm, dst: nat, path: seq<nat>, out: Outcome, qt: QTables)
    returns (next: nat, survived: bool, draw: real)
    requires net.Valid() && |values| == |qt.tables| == net.n && dst < net.n
    requires IsWalk(net, path) && path[|path| - 1] != dst && Ahead(net, path) != []
    modifies out`regret, out`transmissions, qt
    ensures next < net.n && next in net.neighbours[path[|path| - 1]] && next !in path
    ensures arm.OracleArm? ==> next == Greedy(net, values, path[|path| - 1], Ahead(net, path))
    ensures out.regret == old(out.regret) + Charge(net, values, path[|path| - 1], next)
    ensures out.transmissions == old(out.transmissions) + 1
    ensures 0.0 <= draw < 1.0 && (survived <==> draw < net.Q(path[|path| - 1], next))
    ensures qt.tables == if arm.QRoutingArm?
      then TablesStep(net, old(qt.tables), qt.alpha, qt.init, Hop(path[|path| - 1], dst, next, survived))
      else old(qt.tables)
  {
    var current := path[|path| - 1];
    var coin;
    next, coin := PickNext(net, values, arm, dst, path, qt);
    out.regret := out.regret + Charge(net, values, current, next);
    out.transmissions := out.transmissions + 1;
    draw :| 0.0 <= draw < 1.0;
    survived := draw < net.Q(current, next);
    if arm.QRoutingArm? {
      var target := 0.0;
      if survived {
        target := qt.Best(net, next, dst);
      }
      qt.Update(current, dst, next, target);
    }
  }

  /** Where a trip in progress stands. */
  ghost predicate EnRoute(net: Network, v: seq<real>, arm: Arm, src: nat, dst: nat, path: seq<nat>, lost: bool,
    before: seq<Table<nat>>, now: seq<Table<nat>>, alpha: real, init: real)
    requires net.Valid() && |v| == |before| == net.n && src < net.n
  {
    && IsTrip(net, dst, path) && path[0] == src && Distinct(path)
    && AreDecisions(net, Decisions(dst, path, lost))
    && (now == if arm.QRoutingArm? then TablesAfter(net, before, alpha, init, Decisions(dst, path, lost)) else before)
    && (arm.OracleArm? ==> path == Follow(net, v, dst, [src], |path| - 1))
  }

  /** One more hop along the trip. */
  lemma {:induction false} EnRouteStep(net: Network, v: seq<real>, arm: Arm, src: nat, dst: nat, path: seq<nat>,
      next: nat, survived: bool,
      before: seq<Table<nat>>, now: seq<Table<nat>>, after: seq<Table<nat>>, alpha: real, init: real)
    requires net.Valid() && |v| == |before| == |now| == net.n && src < net.n && dst < net.n
    requires EnRoute(net, v, arm, src, dst, path, false, before, now, alpha, init)
    requires IsTrip(net, dst, path) && path[|path| - 1] != dst && Ahead(net, path) != []
    requires next < net.n && next in net.neighbours[path[|path| - 1]] && next !in path
    requires arm.OracleArm? ==> next == Greedy(net, v, path[|path| - 1], Ahead(net, path))
    requires after == if arm.QRoutingArm?
      then TablesStep(net, now, alpha, init, Hop(path[|path| - 1], dst, next, survived)) else now
    ensures IsTrip(net, dst, path + [next])
    ensures EnRoute(net, v, arm, src, dst, path + [next], !survived, before, after, alpha, init)
  {
    hide Times, Greedy, TablesStep, Ahead, Candidates;
    OneMoreDecision(net, dst, path, next, !survived);
    if arm.OracleArm? {
      FollowOneMore(net, v, dst, [src], |path| - 1);
    }
  }

  /** Routes one message. `trip` is the path tried, ending with the hop that was
      lost if `lost`; otherwise the message stopped at the destination, at the hop
      limit, or where every neighbour had been visited. */
  method RouteUnicast(net: Network, arm: Arm, src: nat, dst: nat, eps: real, out: Outcome, qt: QTables)
    returns (trip: seq<nat>, lost: bool, draws: seq<real>)
    requires net.Valid() && src < net.n && dst < net.n && src != dst && |qt.tables| == net.n
    modifies out, qt
    ensures EnRoute(net, Values(net, dst, eps), arm, src, dst, trip, lost, old(qt.tables), qt.tables, qt.alpha, qt.init)
    ensures |trip| - 1 <= TTL && (lost ==> |trip| > 1) && Survives(net, trip, lost, draws)
    ensures !lost ==> trip[|trip| - 1] == dst || |trip| - 1 == TTL || Ahead(net, trip) == []
    ensures Recorded(net, dst, eps, trip, lost, old(Totals(out)), Totals(out)) && out.total == old(out.total)
  {
    hide Times, Values, Greedy, Charges, TripLatency, Ahead, EnRoute, Survives;
    var values := OracleTable(net, dst, eps);
    var hops, latency;
    trip, hops, latency, lost, draws := FollowArm(net, values, arm, src, dst, out, qt);
    if !lost && trip[|trip| - 1] == dst {
      Arrive(out, hops, latency);
    }
  }

  /** One draw for each hop; a hop survives exactly when its draw is below the quality
      of its link, and only the last hop of a lost trip does not. */
  predicate Survives(net: Network, trip: seq<nat>, lost: bool, draws: seq<real>) {
    |draws| + 1 == |trip| && forall k :: 0 <= k < |draws| ==>
      && 0.0 <= draws[k] < 1.0
      && (draws[k] < net.Q(trip[k], trip[k + 1]) <==> !(lost && k == |draws| - 1))
  }

  lemma SurvivesNext(net: Network, trip: seq<nat>, next: nat, draws: seq<real>, draw: real)
    requires Survives(net, trip, false, draws) && 0.0 <= draw < 1.0
    ensures Survives(net, trip + [next], !(draw < net.Q(trip[|trip| - 1], next)), draws + [draw])
  {
  }

  lemma NothingLost(net: Network, src: nat)
    ensures Survives(net, [src], false, [])
  {
  }

  /** What a trip in progress has cost: transmissions, regret and latency. */
  ghost predicate Paid(net: Network, v: seq<real>, path: seq<nat>, before: (nat, real), now: (nat, real),
      latency: real) {
    && IsWalk(net, path) && |v| == net.n
    && now.0 == before.0 + |path| - 1
    && now.1 == before.1 + Charges(net, v, path, |path| - 1)
    && latency == TripLatency(net, path, |path| - 1)
  }

  lemma PaidNext(net: Network, v: seq<real>, path: seq<nat>, next: nat, before: (nat, real), now: (nat, real),
      latency: real)
    requires Paid(net, v, path, before, now, latency) && path != []
    requires path[|path| - 1] < |v| && next < net.n == |v| && next in net.neighbours[path[|path| - 1]]
    ensures Paid(net, v, path + [next], before, (now.0 + 1, now.1 + Charge(net, v, path[|path| - 1], next)),
              latency + net.Latency(path[|path| - 1], next))
  {
    ChargeNext(net, v, path, next);
  }

  lemma NothingPaid(net: Network, v: seq<real>, src: nat, before: (nat, real))
    requires net.Valid() && |v| == net.n && src < net.n
    ensures Paid(net, v, [src], before, before, 0.0)
  {
  }

  /** The loop: hop by hop until the trip ends. */
  method FollowArm(net: Network, values: seq<real>, arm: Arm, src: nat, dst: nat, out: Outcome, qt: QTables)
    returns (path: seq<nat>, hops: nat, latency: real, lost: bool, draws: seq<real>)
    requires net.Valid() && src < net.n && dst < net.n && |values| == |qt.tables| == net.n
    modifies out`regret, out`transmissions, qt
    ensures IsTrip(net, dst, path) && path[0] == src
    ensures EnRoute(net, values, arm, src, dst, path, lost, old(qt.tables), qt.tables, qt.alpha, qt.init)
    ensures hops == |path| - 1 <= TTL && (lost ==> |path| > 1) && Survives(net, path, lost, draws)
    ensures !lost ==> path[|path| - 1] == dst || |path| - 1 == TTL || Ahead(net, path) == []
    ensures Paid(net, values, path, old((out.transmissions, out.regret)), (out.transmissions, out.regret), latency)
  {
    hide Times, Greedy, Charge, TablesStep, Ahead, Candidates, EnRoute, Paid, Survives;
    path, hops, latency, lost, draws := [src], 0, 0.0, false, [];
    ghost var tables, before := qt.tables, (out.transmissions, out.regret);
    NotStartedYet(net, values, arm, src, dst, tables, qt.alpha, qt.init);
    NothingPaid(net, values, src, before);
    NothingLost(net, src);
    while hops < TTL && path[|path| - 1] != dst
      invariant !lost && hops == |path| - 1 <= TTL && |qt.tables| == net.n
      invariant IsTrip(net, dst, path) && path[0] == src && Survives(net, path, false, draws)
      invariant EnRoute(net, values, arm, src, dst, path, false, tables, qt.tables, qt.alpha, qt.init)
      invariant Paid(net, values, path, before, (out.transmissions, out.regret), latency)
    {
      if Ahead(net, path) == [] {
        return;
      }
      ghost var now, paid := qt.tables, (out.transmissions, out.regret);
      var next, survived, draw := Decide(net, values, arm, dst, path, out, qt);
      EnRouteStep(net, values, arm, src, dst, path, next, survived, tables, now, qt.tables, qt.alpha, qt.init);
      PaidNext(net, values, path, next, before, paid, latency);
      SurvivesNext(net, path, next, draws, draw);
      draws := draws + [draw];
      hops, latency := hops + 1, latency + net.Latency(path[|path| - 1], next);
      path := path + [next];
      if !survived {
        lost := true;
        return;
      }
    }
  }

  method Arrive(out: Outcome, hops: nat, latency: real)
    modifies out`delivered, out`hops, out`latencyMs
    ensures out.delivered == old(out.delivered) + 1
    ensures out.hops == old(out.hops) + hops && out.latencyMs == old(out.latencyMs) + latency
  {
    out.delivered := out.delivered + 1;
    out.hops := out.hops + hops;
    out.latencyMs := out.latencyMs + latency;
  }

  lemma NotStartedYet(net: Network, v: seq<real>, arm: Arm, src: nat, dst: nat, tables: seq<Table<nat>>, alpha: real,
      init: real)
    requires net.Valid() && |v| == |tables| == net.n && src < net.n
    ensures EnRoute(net, v, arm, src, dst, [src], false, tables, tables, alpha, init)
  {
  }

  /** A longer budget lets the greedy walk take one more step. */
  lemma {:induction false} FollowOneMore(net: Network, v: seq<real>, dst: nat, w: seq<nat>, ttl: nat)
    requires net.Valid() && |v| == net.n && IsWalk(net, w)
    requires var r := Follow(net, v, dst, w, ttl); |r| == |w| + ttl && r[|r| - 1] != dst && Ahead(net, r) != []
    ensures var r := Follow(net, v, dst, w, ttl);
      Follow(net, v, dst, w, ttl + 1) == r + [Greedy(net, v, r[|r| - 1], Ahead(net, r))]
    decreases ttl
  {
    hide Times, Greedy, Ahead, Candidates;
    if ttl > 0 {
      var u := w[|w| - 1];
      FollowOneMore(net, v, dst, w + [Greedy(net, v, u, Ahead(net, w))], ttl - 1);
    }
  }

  lemma OneMoreDecision(net: Network, dst: nat, path: seq<nat>, next: nat, lost: bool)
    requires IsTrip(net, dst, path) && path[|path| - 1] != dst && dst < net.n
    requires next < net.n && next in net.neighbours[path[|path| - 1]]
    ensures IsTrip(net, dst, path + [next]) && AreDecisions(net, Decisions(dst, path + [next], lost))
    ensures var d := Decisions(dst, path + [next], lost);
      d == Decisions(dst, path, false) + [Hop(path[|path| - 1], dst, next, !lost)]
      && d[..|d| - 1] == Decisions(dst, path, false)
  {
  }

  // ----- Trips of the oracle arm -----

  /** A walk that has climbed and been charged nothing. */
  predicate Free(net: Network, v: seq<real>, w: seq<nat>) {
    Climbs(net, v, w) && Charges(net, v, w, |w| - 1) == 0.0
  }

  lemma FreeHop(net: Network, dst: nat, eps: real, w: seq<nat>)
    requires LinksAreLossy(net) && 0.0 <= eps && dst < net.n && IsWalk(net, w) && Free(net, Values(net, dst, eps), w)
    requires w[|w| - 1] != dst && Ahead(net, w) != []
    ensures var v := Values(net, dst, eps); Free(net, v, w + [Greedy(net, v, w[|w| - 1], Ahead(net, w))])
  {
    hide Times, Values, Greedy, Charge, Ahead;
    var v := Values(net, dst, eps);
    GreedyHopIsFree(net, dst, eps, w);
    ChargeNext(net, v, w, Greedy(net, v, w[|w| - 1], Ahead(net, w)));
  }

  /** Whatever prefix of its greedy path the arm covers is free. */
  lemma {:induction false} FollowIsFree(net: Network, dst: nat, eps: real, w: seq<nat>, ttl: nat)
    requires LinksAreLossy(net) && 0.0 <= eps && dst < net.n && IsWalk(net, w) && Free(net, Values(net, dst, eps), w)
    ensures Free(net, Values(net, dst, eps), Follow(net, Values(net, dst, eps), dst, w, ttl))
    decreases ttl
  {
    hide Times, Values, Greedy, Ahead, Free;
    var v, u := Values(net, dst, eps), w[|w| - 1];
    if ttl != 0 && u != dst && Ahead(net, w) != [] {
      FreeHop(net, dst, eps, w);
      FollowIsFree(net, dst, eps, w + [Greedy(net, v, u, Ahead(net, w))], ttl - 1);
    }
  }

  lemma StartIsFree(net: Network, v: seq<real>, src: nat)
    requires net.Valid() && |v| == net.n && src < net.n
    ensures Free(net, v, [src])
  {
  }

  /** For every tolerance, every source and every trip of the oracle arm: no regret
      is charged, whatever is lost; a trip that reaches the destination is within
      n-1 tolerances of the best walk; and from a source with a positive value a trip
      that is not lost stops only at the destination or at the hop limit, and does
      reach the destination when n-1 hops fit the limit. */
  lemma {:induction false} OracleTrip(net: Network, src: nat, dst: nat, eps: real, trip: seq<nat>, lost: bool)
    requires LinksAreLossy(net) && 0.0 <= eps && src < net.n && dst < net.n
    requires trip != [] && trip == Follow(net, Values(net, dst, eps), dst, [src], |trip| - 1)
    requires !lost ==> trip[|trip| - 1] == dst || |trip| - 1 == TTL || Ahead(net, trip) == []
    ensures Charges(net, Values(net, dst, eps), trip, |trip| - 1) == 0.0
    ensures trip[|trip| - 1] == dst ==> NearBest(net, dst, eps, src, trip)
    ensures !lost && |trip| - 1 <= TTL ==> trip == Follow(net, Values(net, dst, eps), dst, [src], TTL)
    ensures Values(net, dst, eps)[src] > 0.0 && !lost ==> trip[|trip| - 1] == dst || |trip| - 1 == TTL
    ensures Values(net, dst, eps)[src] > 0.0 && !lost && net.n - 1 <= TTL ==> trip[|trip| - 1] == dst
  {
    hide Times, Values, Greedy, Charges, Ahead, Follow, Product, Climbs, NearBest;
    var v := Values(net, dst, eps);
    StartIsFree(net, v, src);
    FollowIsFree(net, dst, eps, [src], |trip| - 1);
    GreedyIsNearBest(net, dst, eps, src, |trip| - 1);
    assert trip[0] == src;
    if v[src] > 0.0 {
      ArmGoesOn(net, dst, eps, trip);
    }
    if !lost && |trip| - 1 <= TTL {
      StoppedForGood(net, v, dst, [src], |trip| - 1, TTL);
    }
  }

  // ----- A whole run -----

  lemma {:induction false} TablesAfterSum(net: Network, tables: seq<Table<nat>>, alpha: real, init: real, a: seq<Hop>,
      b: seq<Hop>)
    requires net.Valid() && |tables| == net.n && AreDecisions(net, a) && AreDecisions(net, b)
    ensures AreDecisions(net, a + b)
    ensures TablesAfter(net, tables, alpha, init, a + b)
      == TablesAfter(net, TablesAfter(net, tables, alpha, init, a), alpha, init, b)
  {
    hide TablesStep;
    if b == [] {
      assert a + b == a;
    } else {
      var front := b[..|b| - 1];
      TablesAfterSum(net, tables, alpha, init, a, front);
      assert (a + b)[..|a + b| - 1] == a + front;
    }
  }

  lemma {:induction false} ChargesAreNotNegative(net: Network, v: seq<real>, trip: seq<nat>, k: nat)
    requires k < |trip| && forall i :: 0 <= i < |trip| ==> trip[i] < |v|
    ensures 0.0 <= Charges(net, v, trip, k)
  {
    if k > 0 {
      ChargesAreNotNegative(net, v, trip, k - 1);
    }
  }

  /** What one message adds to the totals. */
  ghost predicate AddsUp(arm: Arm, lossy: bool, before: (nat, nat, real, nat, real),
      after: (nat, nat, real, nat, real)) {
    && before.0 <= after.0 <= before.0 + 1
    && before.3 <= after.3 <= before.3 + TTL
    && after.1 - before.1 <= after.3 - before.3
    && before.1 + after.0 - before.0 <= after.1 <= before.1 + TTL * (after.0 - before.0)
    && before.4 <= after.4 && (arm.OracleArm? && lossy ==> after.4 == before.4)
  }

  lemma TripAdds(net: Network, arm: Arm, src: nat, dst: nat, eps: real, trip: seq<nat>, lost: bool,
    before: (nat, nat, real, nat, real), after: (nat, nat, real, nat, real), tables: seq<Table<nat>>,
      now: seq<Table<nat>>,
      alpha: real, init: real)
    requires net.Valid() && 0.0 <= eps && src < net.n && dst < net.n && src != dst && |tables| == net.n
    requires EnRoute(net, Values(net, dst, eps), arm, src, dst, trip, lost, tables, now, alpha, init)
    requires |trip| - 1 <= TTL && (!lost ==> trip[|trip| - 1] == dst || |trip| - 1 == TTL || Ahead(net, trip) == [])
    requires Recorded(net, dst, eps, trip, lost, before, after)
    ensures AddsUp(arm, LinksAreLossy(net), before, after)
  {
    hide Times, Values, Follow, Charges, TablesAfter, Decisions, AreDecisions, Ahead, LinksAreLossy, TripLatency;
    ChargesAreNotNegative(net, Values(net, dst, eps), trip, |trip| - 1);
    if arm.OracleArm? && LinksAreLossy(net) {
      OracleTrip(net, src, dst, eps, trip, lost);
    }
  }

  /** Routes the given messages one after another. `decisions` lists the Q-routing
      decisions of the whole run. */
  method Run(net: Network, arm: Arm, eps: real, messages: seq<(nat, nat)>, alpha: real, init: real)
    returns (out: Outcome, qt: QTables, ghost decisions: seq<Hop>)
    requires net.Valid() && 0.0 <= eps
    requires forall i :: 0 <= i < |messages| ==>
      messages[i].0 < net.n && messages[i].1 < net.n && messages[i].0 != messages[i].1
    ensures fresh(out) && fresh(qt) && out.total == |messages| && out.delivered <= |messages|
    ensures out.delivered <= out.hops <= out.transmissions <= TTL * |messages| && out.hops <= TTL * out.delivered
    ensures 0.0 <= out.regret && (arm.OracleArm? && LinksAreLossy(net) ==> out.regret == 0.0)
    ensures AreDecisions(net, decisions)
    ensures qt.tables == if arm.QRoutingArm?
      then TablesAfter(net, seq(net.n, _ => map[]), alpha, init, decisions) else seq(net.n, _ => map[])
  {
    hide Times, Values, LinksAreLossy, TablesAfter, Recorded;
    out := new Outcome(|messages|);
    qt := new QTables(net.n, alpha, init);
    ghost var start := qt.tables;
    decisions := [];
    NoDecisionsYet(net, start, alpha, init);
    for i := 0 to |messages|
      invariant fresh(out) && fresh(qt) && |qt.tables| == net.n && qt.alpha == alpha && qt.init == init
      invariant out.total == |messages| && out.delivered <= i && out.transmissions <= TTL * i
      invariant out.delivered <= out.hops <= out.transmissions && out.hops <= TTL * out.delivered
      invariant 0.0 <= out.regret && (arm.OracleArm? && LinksAreLossy(net) ==> out.regret == 0.0)
      invariant AreDecisions(net, decisions)
      invariant qt.tables == if arm.QRoutingArm? then TablesAfter(net, start, alpha, init, decisions) else start
    {
      var (src, dst) := messages[i];
      ghost var before, tables := Totals(out), qt.tables;
      var trip, lost, draws := RouteUnicast(net, arm, src, dst, eps, out, qt);
      TripAdds(net, arm, src, dst, eps, trip, lost, before, Totals(out), tables, qt.tables, alpha, init);
      if arm.QRoutingArm? {
        TablesAfterSum(net, start, alpha, init, decisions, Decisions(dst, trip, lost));
        decisions := decisions + Decisions(dst, trip, lost);
      }
    }
  }

  lemma {:induction false} NoDecisionsYet(net: Network, tables: seq<Table<nat>>, alpha: real, init: real)
    requires net.Valid() && |tables| == net.n
    ensures AreDecisions(net, []) && TablesAfter(net, tables, alpha, init, []) == tables
  {
  }
}
