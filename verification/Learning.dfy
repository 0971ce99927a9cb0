/** What a router learns from recorded outcomes: the destination-agnostic bandit,
    one bandit per destination, and the success history of each peer. */
module Learning {
  import opened Options
  import opened Reals

  type PeerId = string

  datatype PeerStats = PeerStats(selections: nat, avgReward: real)

  datatype Bandit = Bandit(total: nat, peers: map<PeerId, PeerStats>)

  const NewBandit := Bandit(0, map[])

  /** The incremental mean after one more reward on top of `n`. */
  function NextMean(avg: real, reward: real, n: nat): real {
    avg + (reward - avg) / (n + 1) as real
  }

  /** One reward for one peer. */
  function Rewarded(b: Bandit, peer: PeerId, reward: real): Bandit {
    var s := if peer in b.peers then b.peers[peer] else PeerStats(0, 0.0);
    Bandit(b.total + 1, b.peers[peer := PeerStats(s.selections + 1, NextMean(s.avgReward, reward, s.selections))])
  }

  /** A reward given to a peer. */
  type Payment = (PeerId, real)

  function Play(payments: seq<Payment>): Bandit {
    if payments == [] then NewBandit
    else Rewarded(Play(payments[..|payments| - 1]), payments[|payments| - 1].0, payments[|payments| - 1].1)
  }

  function Count(payments: seq<Payment>, peer: PeerId): nat {
    if payments == [] then 0
    else Count(payments[..|payments| - 1], peer) + if payments[|payments| - 1].0 == peer then 1 else 0
  }

  function Total(payments: seq<Payment>, peer: PeerId): real {
    if payments == [] then 0.0
    else
      var last := payments[|payments| - 1];
      Total(payments[..|payments| - 1], peer) + if last.0 == peer then last.1 else 0.0
  }

  lemma MeanStep(avg: real, reward: real, n: nat)
    ensures Times(NextMean(avg, reward, n), (n + 1) as real) == Times(avg, n as real) + reward
  {
    var d := (n + 1) as real;
    var step := (reward - avg) / d;
    assert step * d == reward - avg;
    assert (avg + step) * d == avg * d + step * d;
    assert avg * d == avg * n as real + avg;
  }

  lemma {:induction false} Snoc(payments: seq<Payment>, p: Payment, peer: PeerId)
    ensures Play(payments + [p]) == Rewarded(Play(payments), p.0, p.1)
    ensures Count(payments + [p], peer) == Count(payments, peer) + if p.0 == peer then 1 else 0
    ensures Total(payments + [p], peer) == Total(payments, peer) + if p.0 == peer then p.1 else 0.0
  {
    assert (payments + [p])[..|payments|] == payments;
  }

  /** A peer's statistics agree with its payments: selections count them, and the
      average times the selections is their sum. */
  predicate Agrees(b: Bandit, peer: PeerId, count: nat, total: real) {
    if peer in b.peers
    then count > 0 && b.peers[peer].selections == count && Times(b.peers[peer].avgReward, count as real) == total
    else count == 0 && total == 0.0
  }

  lemma RewardAgrees(b: Bandit, peer: PeerId, count: nat, total: real, p: Payment)
    requires Agrees(b, peer, count, total)
    ensures Agrees(Rewarded(b, p.0, p.1), peer,
              count + (if p.0 == peer then 1 else 0), total + if p.0 == peer then p.1 else 0.0)
  {
    hide Times, NextMean;
    if p.0 == peer {
      var s := if peer in b.peers then b.peers[peer] else PeerStats(0, 0.0);
      MeanStep(s.avgReward, p.1, s.selections);
      TimesZero(0.0);
      assert Times(s.avgReward, s.selections as real) == total;
    }
  }

  /** For every sequence of payments, each peer's selections count its payments
      and its average times its selections is their sum. */
  lemma {:induction false} AverageIsMean(payments: seq<Payment>, peer: PeerId)
    ensures Agrees(Play(payments), peer, Count(payments, peer), Total(payments, peer))
  {
    hide Times, Rewarded, Agrees;
    if payments != [] {
      var front, last := payments[..|payments| - 1], payments[|payments| - 1];
      AverageIsMean(front, peer);
      RewardAgrees(Play(front), peer, Count(front, peer), Total(front, peer), last);
    } else {
      NothingAgrees(peer);
    }
  }

  lemma {:induction false} NothingAgrees(peer: PeerId)
    ensures Agrees(Play([]), peer, Count([], peer), Total([], peer))
  {
  }

  ghost function SumSelections(peers: map<PeerId, PeerStats>): nat
    decreases |peers|
  {
    if peers == map[] then 0 else
      var p :| p in peers;
      assert (peers - {p}).Keys == peers.Keys - {p};
      peers[p].selections + SumSelections(peers - {p})
  }

  /** The sum does not depend on the order in which peers are visited. */
  lemma {:induction false} SumWithout(peers: map<PeerId, PeerStats>, p: PeerId)
    requires p in peers
    ensures SumSelections(peers) == peers[p].selections + SumSelections(peers - {p})
    decreases |peers|
  {
    var q :| q in peers && SumSelections(peers) == peers[q].selections + SumSelections(peers - {q});
    if q != p {
      assert (peers - {q}).Keys == peers.Keys - {q};
      assert (peers - {p}).Keys == peers.Keys - {p};
      SumWithout(peers - {q}, p);
      SumWithout(peers - {p}, q);
      assert peers - {q} - {p} == peers - {p} - {q};
    }
  }

  lemma {:induction false} SumAfterUpdate(peers: map<PeerId, PeerStats>, p: PeerId, s: PeerStats)
    ensures SumSelections(peers[p := s]) == SumSelections(peers) + s.selections -
      if p in peers then peers[p].selections else 0
  {
    SumWithout(peers[p := s], p);
    assert peers[p := s] - {p} == peers - {p};
    if p in peers {
      SumWithout(peers, p);
    } else {
      assert peers - {p} == peers;
    }
  }

  /** For every sequence of payments, the total is the sum over the peers. */
  lemma {:induction false} TotalIsSum(payments: seq<Payment>)
    ensures Play(payments).total == |payments| == SumSelections(Play(payments).peers)
  {
    hide NextMean;
    if payments != [] {
      var front, last := payments[..|payments| - 1], payments[|payments| - 1];
      TotalIsSum(front);
      assert Play(payments) == Rewarded(Play(front), last.0, last.1);
      SumAfterUpdate(Play(front).peers, last.0, Play(payments).peers[last.0]);
    }
  }

  // ----- Recorded outcomes -----

  /** `latency` of a successful hop, in seconds, or none for a failure; recorded
      against a peer in general or toward one destination. */
  datatype Outcome =
    | Routed(peer: PeerId, latency: Option<real>)
    | Toward(dest: PeerId, peer: PeerId, latency: Option<real>)

  function Clamp(x: real, lo: real, hi: real): real {
    if x < lo then lo else if x > hi then hi else x
  }

  function Reward(latency: Option<real>): real {
    match latency case None => 0.0 case Some(l) => Clamp(1.0 - 2.0 * l, 0.5, 1.0)
  }

  /** Payments to the destination-agnostic bandit. */
  function Payments(outcomes: seq<Outcome>): seq<Payment> {
    if outcomes == [] then [] else
      var last, rest := outcomes[|outcomes| - 1], Payments(outcomes[..|outcomes| - 1]);
      if last.Routed? then rest + [(last.peer, Reward(last.latency))] else rest
  }

  /** Payments to the bandit of one destination. */
  function PaymentsToward(outcomes: seq<Outcome>, dest: PeerId): seq<Payment> {
    if outcomes == [] then [] else
      var last, rest := outcomes[|outcomes| - 1], PaymentsToward(outcomes[..|outcomes| - 1], dest);
      if last.Toward? && last.dest == dest then rest + [(last.peer, Reward(last.latency))] else rest
  }

  datatype RouteStats = RouteStats(successes: nat, failures: nat, totalLatency: real, samples: nat)

  const NewStats := RouteStats(0, 0, 0.0, 0)

  function Experienced(s: RouteStats, latency: Option<real>): RouteStats {
    match latency
    case None => s.(failures := s.failures + 1)
    case Some(l) => RouteStats(s.successes + 1, s.failures, s.totalLatency + l, s.samples + 1)
  }

  function StatsOf(history: map<PeerId, RouteStats>, peer: PeerId): RouteStats {
    if peer in history then history[peer] else NewStats
  }

  function HistoryOf(outcomes: seq<Outcome>): map<PeerId, RouteStats> {
    if outcomes == [] then map[] else
      var last, before := outcomes[|outcomes| - 1], HistoryOf(outcomes[..|outcomes| - 1]);
      if last.Routed? then before[last.peer := Experienced(StatsOf(before, last.peer), last.latency)] else before
  }

  /** The outcomes not tied to a destination. */
  function General(outcomes: seq<Outcome>): seq<Outcome> {
    if outcomes == [] then [] else
      var last, rest := outcomes[|outcomes| - 1], General(outcomes[..|outcomes| - 1]);
      if last.Routed? then rest + [last] else rest
  }

  /** The outcomes tied to `dest`. */
  function About(outcomes: seq<Outcome>, dest: PeerId): seq<Outcome> {
    if outcomes == [] then [] else
      var last, rest := outcomes[|outcomes| - 1], About(outcomes[..|outcomes| - 1], dest);
      if last.Toward? && last.dest == dest then rest + [last] else rest
  }

  lemma {:induction false} OutcomeSnoc(outcomes: seq<Outcome>, o: Outcome, dest: PeerId)
    ensures Payments(outcomes + [o])
      == if o.Routed? then Payments(outcomes) + [(o.peer, Reward(o.latency))] else Payments(outcomes)
    ensures PaymentsToward(outcomes + [o], dest)
      == if o.Toward? && o.dest == dest
         then PaymentsToward(outcomes, dest) + [(o.peer, Reward(o.latency))] else PaymentsToward(outcomes, dest)
    ensures HistoryOf(outcomes + [o]) == if o.Routed?
      then HistoryOf(outcomes)[o.peer := Experienced(StatsOf(HistoryOf(outcomes), o.peer), o.latency)]
        else HistoryOf(outcomes)
  {
    assert (outcomes + [o])[..|outcomes|] == outcomes;
  }

  lemma RewardBounds(latency: Option<real>)
    ensures if latency.None? then Reward(latency) == 0.0 else 0.5 <= Reward(latency) <= 1.0
  {
  }

  /** A summed reward that fits a success record: between half of it and all of it. */
  predicate Fits(s: RouteStats, count: nat, total: real) {
    count == s.successes + s.failures && s.successes as real / 2.0 <= total <= s.successes as real
  }

  lemma ExperienceFits(s: RouteStats, count: nat, total: real, latency: Option<real>)
    requires Fits(s, count, total)
    ensures Fits(Experienced(s, latency), count + 1, total + Reward(latency))
  {
    hide Reward;
    RewardBounds(latency);
  }

  ghost predicate Matches(outcomes: seq<Outcome>, peer: PeerId) {
    Fits(StatsOf(HistoryOf(outcomes), peer), Count(Payments(outcomes), peer), Total(Payments(outcomes), peer))
  }

  lemma HistoryStep(front: seq<Outcome>, last: Outcome, peer: PeerId)
    requires Matches(front, peer)
    ensures Matches(front + [last], peer)
  {
    hide Reward, Fits, Experienced, Payments, HistoryOf, Count, Total;
    OutcomeSnoc(front, last, peer);
    if last.Routed? {
      Snoc(Payments(front), (last.peer, Reward(last.latency)), peer);
      ExperienceFits(StatsOf(HistoryOf(front), peer), Count(Payments(front), peer), Total(Payments(front), peer),
        last.latency);
    }
  }

  lemma NothingMatches(peer: PeerId)
    ensures Matches([], peer)
  {
  }

  /** For every mix of outcomes, a peer's selections are its successes plus its
      failures, and its summed reward lies between half its successes and its
      successes. */
  lemma {:induction false} RewardsMatchHistory(outcomes: seq<Outcome>, peer: PeerId)
    ensures Matches(outcomes, peer)
  {
    hide Matches;
    if outcomes == [] {
      NothingMatches(peer);
    } else {
      var front, last := outcomes[..|outcomes| - 1], outcomes[|outcomes| - 1];
      RewardsMatchHistory(front, peer);
      HistoryStep(front, last, peer);
      assert outcomes == front + [last];
    }
  }

  /** Outcomes recorded toward destinations change neither the general bandit nor
      the history, and each destination's bandit depends only on its own. */
  lemma {:induction false} DestinationsAreSeparate(outcomes: seq<Outcome>, dest: PeerId)
    ensures Payments(outcomes) == Payments(General(outcomes)) && HistoryOf(outcomes) == HistoryOf(General(outcomes))
    ensures PaymentsToward(outcomes, dest) == PaymentsToward(About(outcomes, dest), dest)
  {
    hide Reward, Experienced, StatsOf;
    if outcomes != [] {
      var front, last := outcomes[..|outcomes| - 1], outcomes[|outcomes| - 1];
      DestinationsAreSeparate(front, dest);
      OutcomeSnoc(front, last, dest);
      assert outcomes == front + [last];
      OutcomeSnoc(General(front), last, dest);
      OutcomeSnoc(About(front, dest), last, dest);
    }
  }

  // ----- What rewards mean -----

  /** A failure pays nothing. A success pays 1 without latency, half from a quarter
      of a second on, and in between falls in a straight line. */
  lemma RewardMeaning(l: real)
    ensures Reward(None) == 0.0
    ensures l <= 0.0 ==> Reward(Some(l)) == 1.0
    ensures 0.0 <= l <= 0.25 ==> Reward(Some(l)) == 1.0 - 2.0 * l
    ensures l >= 0.25 ==> Reward(Some(l)) == 0.5
  {
  }

  /** `fast` is no worse an outcome than `slow`. */
  predicate NoSlower(fast: Option<real>, slow: Option<real>) {
    slow.Some? ==> fast.Some? && fast.value <= slow.value
  }

  lemma FasterPaysMore(fast: Option<real>, slow: Option<real>)
    requires NoSlower(fast, slow)
    ensures Reward(fast) >= Reward(slow)
  {
  }

  /** The latencies recorded against a peer, in order: in general, or toward one
      destination. */
  function LatenciesOf(outcomes: seq<Outcome>, scope: Option<PeerId>, peer: PeerId): seq<Option<real>> {
    if outcomes == [] then [] else
      var last, rest := outcomes[|outcomes| - 1], LatenciesOf(outcomes[..|outcomes| - 1], scope, peer);
      if last.peer == peer && (if last.Routed? then scope.None? else scope == Some(last.dest))
      then rest + [last.latency] else rest
  }

  function PaymentsIn(outcomes: seq<Outcome>, scope: Option<PeerId>): seq<Payment> {
    if scope.None? then Payments(outcomes) else PaymentsToward(outcomes, scope.value)
  }

  function Rewards(latencies: seq<Option<real>>): real {
    if latencies == [] then 0.0 else Rewards(latencies[..|latencies| - 1]) + Reward(latencies[|latencies| - 1])
  }

  /** A peer is paid once for each of its outcomes, by its latency alone. */
  lemma {:induction false} PaidByLatency(outcomes: seq<Outcome>, scope: Option<PeerId>, peer: PeerId)
    ensures Count(PaymentsIn(outcomes, scope), peer) == |LatenciesOf(outcomes, scope, peer)|
    ensures Total(PaymentsIn(outcomes, scope), peer) == Rewards(LatenciesOf(outcomes, scope, peer))
  {
    hide Reward;
    if outcomes != [] {
      var front, last := outcomes[..|outcomes| - 1], outcomes[|outcomes| - 1];
      PaidByLatency(front, scope, peer);
      assert outcomes == front + [last];
      OutcomeSnoc(front, last, if scope.Some? then scope.value else peer);
      if PaymentsIn(outcomes, scope) != PaymentsIn(front, scope) {
        Snoc(PaymentsIn(front, scope), (last.peer, Reward(last.latency)), peer);
      }
    }
  }

  lemma {:induction false} FasterEarnsMore(fast: seq<Option<real>>, slow: seq<Option<real>>)
    requires |fast| == |slow| && forall i :: 0 <= i < |fast| ==> NoSlower(fast[i], slow[i])
    ensures Rewards(fast) >= Rewards(slow)
  {
    hide Reward;
    if fast != [] {
      FasterEarnsMore(fast[..|fast| - 1], slow[..|slow| - 1]);
      FasterPaysMore(fast[|fast| - 1], slow[|slow| - 1]);
    }
  }

  /** Of two peers with as many outcomes, in general or toward one destination, the
      one that was no slower each time has at least the average. */
  lemma {:induction false} FasterPeerIsRatedHigher(outcomes: seq<Outcome>, scope: Option<PeerId>, fast: PeerId,
      slow: PeerId)
    requires var f, s := LatenciesOf(outcomes, scope, fast), LatenciesOf(outcomes, scope, slow);
      |f| == |s| > 0 && forall i :: 0 <= i < |f| ==> NoSlower(f[i], s[i])
    ensures var b := Play(PaymentsIn(outcomes, scope));
      && fast in b.peers && slow in b.peers
      && b.peers[fast].selections == b.peers[slow].selections == |LatenciesOf(outcomes, scope, fast)|
      && b.peers[fast].avgReward >= b.peers[slow].avgReward
  {
    hide Times, Rewards, LatenciesOf, PaymentsIn, Play, Count, Total;
    var payments := PaymentsIn(outcomes, scope);
    PaidByLatency(outcomes, scope, fast);
    PaidByLatency(outcomes, scope, slow);
    AverageIsMean(payments, fast);
    AverageIsMean(payments, slow);
    var f, s := LatenciesOf(outcomes, scope, fast), LatenciesOf(outcomes, scope, slow);
    FasterEarnsMore(f, s);
    var b := Play(payments);
    LargerAverage(b.peers[fast].avgReward, b.peers[slow].avgReward, |f| as real);
  }

  lemma LargerAverage(x: real, y: real, n: real)
    requires n > 0.0 && Times(x, n) >= Times(y, n)
    ensures x >= y
  {
    if x < y {
      TimesPositive(y - x, n);
    }
  }

  /** What a list of outcomes adds up to: successes, failures and summed latency. */
  function Record(latencies: seq<Option<real>>): (r: RouteStats)
    ensures r.successes + r.failures == |latencies| && r.samples == r.successes
  {
    if latencies == [] then RouteStats(0, 0, 0.0, 0) else
      var last, r := latencies[|latencies| - 1], Record(latencies[..|latencies| - 1]);
      if last.Some? then RouteStats(r.successes + 1, r.failures, r.totalLatency + last.value, r.samples + 1)
      else RouteStats(r.successes, r.failures + 1, r.totalLatency, r.samples)
  }

  /** A peer's history is the record of its own outcomes: every success adds its
      latency and one sample, a failure neither. */
  lemma {:induction false} HistoryIsRecord(outcomes: seq<Outcome>, peer: PeerId)
    ensures StatsOf(HistoryOf(outcomes), peer) == Record(LatenciesOf(outcomes, None, peer))
  {
    if outcomes != [] {
      var front, last := outcomes[..|outcomes| - 1], outcomes[|outcomes| - 1];
      HistoryIsRecord(front, peer);
      assert outcomes == front + [last];
      OutcomeSnoc(front, last, peer);
    }
  }

  /** Latencies that stay within bounds keep the summed latency within as many bounds
      as there are samples. */
  lemma {:induction false} RecordWithin(latencies: seq<Option<real>>, lo: real, hi: real)
    requires forall i :: 0 <= i < |latencies| && latencies[i].Some? ==> lo <= latencies[i].value <= hi
    ensures var r := Record(latencies);
      Times(lo, r.samples as real) <= r.totalLatency <= Times(hi, r.samples as real)
  {
    hide Times;
    TimesZero(lo);
    TimesZero(hi);
    if latencies != [] {
      RecordWithin(latencies[..|latencies| - 1], lo, hi);
      OneMoreSample(lo, Record(latencies[..|latencies| - 1]).samples);
      OneMoreSample(hi, Record(latencies[..|latencies| - 1]).samples);
    }
  }

  lemma OneMoreSample(x: real, n: nat)
    ensures Times(x, (n + 1) as real) == Times(x, n as real) + x
  {
  }

  // ----- The router's learned state -----

  class LearnedState {
    var history: map<PeerId, RouteStats>
    var bandit: Bandit
    var byDest: map<PeerId, Bandit>
    ghost var outcomes: seq<Outcome>

    /** The state is a function of the outcomes recorded so far. */
    ghost predicate Valid()
      reads this
    {
      && history == HistoryOf(outcomes)
      && bandit == Play(Payments(outcomes))
      && (forall d :: d in byDest <==> PaymentsToward(outcomes, d) != [])
      && (forall d :: d in byDest ==> byDest[d] == Play(PaymentsToward(outcomes, d)))
    }

    constructor ()
      ensures Valid() && outcomes == []
    {
      history, bandit, byDest, outcomes := map[], NewBandit, map[], [];
    }

    /** Records an outcome in the general bandit and the history. */
    method RecordRoute(peer: PeerId, latency: Option<real>)
      requires Valid()
      modifies this
      ensures Valid() && outcomes == old(outcomes) + [Routed(peer, latency)] && byDest == old(byDest)
    {
      hide Reward, Rewarded, HistoryOf, Payments, PaymentsToward, Play;
      ghost var before := outcomes;
      outcomes := outcomes + [Routed(peer, latency)];
      forall d: PeerId ensures PaymentsToward(outcomes, d) == PaymentsToward(before, d) {
        OutcomeSnoc(before, Routed(peer, latency), d);
      }
      OutcomeSnoc(before, Routed(peer, latency), peer);
      Snoc(Payments(before), (peer, Reward(latency)), peer);
      var stats := StatsOf(history, peer);
      if latency.Some? {
        stats := RouteStats(stats.successes + 1, stats.failures, stats.totalLatency + latency.value, stats.samples + 1);
      } else {
        stats := stats.(failures := stats.failures + 1);
      }
      history := history[peer := stats];
      bandit := Rewarded(bandit, peer, Reward(latency));
    }

    /** Records an outcome in the bandit of one destination only. */
    method RecordToward(dest: PeerId, peer: PeerId, latency: Option<real>)
      requires Valid()
      modifies this
      ensures Valid() && outcomes == old(outcomes) + [Toward(dest, peer, latency)]
      ensures history == old(history) && bandit == old(bandit)
      ensures forall d :: d != dest ==> (d in byDest <==> d in old(byDest))
      ensures forall d :: d != dest && d in byDest ==> byDest[d] == old(byDest)[d]
    {
      ghost var before, o := outcomes, Toward(dest, peer, latency);
      NobodyPaid();
      hide Reward, Rewarded, HistoryOf, Payments, PaymentsToward, Play;
      outcomes := outcomes + [o];
      forall d: PeerId
        ensures PaymentsToward(outcomes, d)
          == if d == dest then PaymentsToward(before, d) + [(peer, Reward(latency))] else PaymentsToward(before, d)
      {
        OutcomeSnoc(before, o, d);
      }
      OutcomeSnoc(before, o, peer);
      Snoc(PaymentsToward(before, dest), (peer, Reward(latency)), peer);
      var current := if dest in byDest then byDest[dest] else NewBandit;
      byDest := byDest[dest := Rewarded(current, peer, Reward(latency))];
    }
  }

  lemma NobodyPaid()
    ensures Play([]) == NewBandit
  {
  }

  /** A peer's statistics in terms of its success record. */
  ghost predicate Lawful(b: Bandit, peer: PeerId, h: RouteStats) {
    && (peer in b.peers <==> h.successes + h.failures > 0)
    && (peer in b.peers ==>
          && b.peers[peer].selections == h.successes + h.failures
          && h.successes as real / 2.0 <= Times(b.peers[peer].avgReward, b.peers[peer].selections as real)
          && Times(b.peers[peer].avgReward, b.peers[peer].selections as real) <= h.successes as real
          && 0.0 <= b.peers[peer].avgReward <= 1.0)
  }

  lemma AgreementIsLawful(b: Bandit, peer: PeerId, h: RouteStats, count: nat, total: real)
    requires Agrees(b, peer, count, total) && Fits(h, count, total)
    ensures Lawful(b, peer, h)
  {
    hide Times;
    if peer in b.peers {
      AverageInUnit(b.peers[peer].avgReward, count as real);
    }
  }

  /** What a reader may rely on after any mix of recorded outcomes: totals are
      sums, selections are the recorded history, and averages are means of
      rewards that reflect the successes. */
  lemma {:induction false} LearnedLaws(outcomes: seq<Outcome>, peer: PeerId, dest: PeerId)
    ensures Lawful(Play(Payments(outcomes)), peer, StatsOf(HistoryOf(outcomes), peer))
    ensures Play(Payments(outcomes)).total == SumSelections(Play(Payments(outcomes)).peers)
    ensures Play(PaymentsToward(outcomes, dest)).total == SumSelections(Play(PaymentsToward(outcomes, dest)).peers)
  {
    TotalIsSum(Payments(outcomes));
    TotalIsSum(PaymentsToward(outcomes, dest));
    hide Times, Lawful, Agrees, Fits, Payments, PaymentsToward, Play, Count, Total, HistoryOf, SumSelections;
    AverageIsMean(Payments(outcomes), peer);
    RewardsMatchHistory(outcomes, peer);
    AgreementIsLawful(Play(Payments(outcomes)), peer, StatsOf(HistoryOf(outcomes), peer),
                      Count(Payments(outcomes), peer), Total(Payments(outcomes), peer));
  }

  lemma AverageInUnit(avg: real, n: real)
    requires n > 0.0 && 0.0 <= Times(avg, n) <= n
    ensures 0.0 <= avg <= 1.0
  {
    if avg < 0.0 {
      TimesPositive(-avg, n);
    } else if avg > 1.0 {
      TimesPositive(avg - 1.0, n);
    }
  }
}
