/** Q-routing twice over: the benchmark's tables, indexed by node number, and the
    router's own state, one per node and keyed by node names. */
module QRouting {
  import opened Networks
  import opened Options
  import opened Reals

  const Q_ALPHA := 0.15
  const Q_INIT := 1.0

  // ----- Node names -----

  function Digit(d: nat): char
    requires d < 10
  {
    "0123456789"[d]
  }

  function Decimal(i: nat): (r: string)
    ensures r != []
  {
    if i < 10 then [Digit(i)] else Decimal(i / 10) + [Digit(i % 10)]
  }

  function NodeName(i: nat): string {
    "n" + Decimal(i)
  }

  function DigitValue(c: char): Option<nat> {
    if '0' <= c <= '9' then Some(c as nat - '0' as nat) else None
  }

  function ParseDecimal(s: string): Option<nat> {
    if s == [] then None
    else if DigitValue(s[|s| - 1]).None? then None
    else if |s| == 1 then DigitValue(s[0])
    else if ParseDecimal(s[..|s| - 1]).None? then None
    else Some(ParseDecimal(s[..|s| - 1]).value * 10 + DigitValue(s[|s| - 1]).value)
  }

  /** Strips the leading letter and parses the rest. */
  function NameToIndex(name: string): Option<nat> {
    if name == [] || name[0] != 'n' then None else ParseDecimal(name[1..])
  }

  lemma DigitParses(d: nat)
    requires d < 10
    ensures DigitValue(Digit(d)) == Some(d)
  {
  }

  lemma {:induction false} ParseOneMore(s: string, k: nat, d: nat)
    requires s != [] && ParseDecimal(s) == Some(k) && d < 10
    ensures ParseDecimal(s + [Digit(d)]) == Some(k * 10 + d)
  {
    hide Digit, DigitValue;
    DigitParses(d);
    assert (s + [Digit(d)])[..|s|] == s;
  }

  lemma {:induction false} DecimalParses(i: nat)
    ensures ParseDecimal(Decimal(i)) == Some(i)
  {
    hide Digit, DigitValue;
    if i < 10 {
      DigitParses(i);
    } else {
      DecimalParses(i / 10);
      ParseOneMore(Decimal(i / 10), i / 10, i % 10);
    }
  }

  /** A node's name determines its number. */
  lemma NameRoundTrip(i: nat)
    ensures NameToIndex(NodeName(i)) == Some(i)
  {
    DecimalParses(i);
    assert NodeName(i)[1..] == Decimal(i);
  }

  lemma NamesAreDistinct(i: nat, k: nat)
    ensures NodeName(i) == NodeName(k) <==> i == k
  {
    NameRoundTrip(i);
    NameRoundTrip(k);
  }

  // ----- One table of estimates, whatever the keys -----

  type Table<K(==)> = map<(K, K), real>

  /** Unseen pairs look maximally good. */
  function Estimate<K(==)>(q: Table<K>, init: real, dest: K, peer: K): real {
    if (dest, peer) in q then q[(dest, peer)] else init
  }

  function Blend(alpha: real, current: real, target: real): real {
    Times(1.0 - alpha, current) + Times(alpha, target)
  }

  function Learn<K(==)>(q: Table<K>, alpha: real, init: real, dest: K, peer: K, target: real): Table<K> {
    q[(dest, peer) := Blend(alpha, Estimate(q, init, dest, peer), target)]
  }

  /** The best estimate over some neighbours; 0 without any. */
  function BestEstimate<K(==)>(q: Table<K>, init: real, dest: K, peers: seq<K>): real {
    if peers == [] then 0.0
    else Max(BestEstimate(q, init, dest, peers[..|peers| - 1]), Estimate(q, init, dest, peers[|peers| - 1]))
  }

  /** `best` is at least 0 and every estimate, and it is 0 or one of them. */
  ghost predicate IsMaximum<K>(best: real, q: Table<K>, init: real, dest: K, peers: seq<K>) {
    && 0.0 <= best && (forall v :: v in peers ==> Estimate(q, init, dest, v) <= best)
    && (best == 0.0 || exists v :: v in peers && best == Estimate(q, init, dest, v))
  }

  lemma {:induction false} BestIsMaximum<K>(q: Table<K>, init: real, dest: K, peers: seq<K>)
    ensures IsMaximum(BestEstimate(q, init, dest, peers), q, init, dest, peers)
  {
    hide Estimate;
    if peers != [] {
      var front, last := peers[..|peers| - 1], peers[|peers| - 1];
      assert peers == front + [last];
      BestIsMaximum(q, init, dest, front);
      if BestEstimate(q, init, dest, peers) != Estimate(q, init, dest, last) &&
         BestEstimate(q, init, dest, peers) != 0.0 {
        var v :| v in front && BestEstimate(q, init, dest, front) == Estimate(q, init, dest, v);
      }
    }
  }

  predicate TableInUnit<K(==)>(q: Table<K>) {
    forall e :: e in q ==> 0.0 <= q[e] <= 1.0
  }

  lemma BlendInUnit(alpha: real, current: real, target: real)
    requires 0.0 <= alpha <= 1.0 && 0.0 <= current <= 1.0 && 0.0 <= target <= 1.0
    ensures 0.0 <= Blend(alpha, current, target) <= 1.0
  {
    hide Times;
    TimesMonotone(1.0 - alpha, current, 1.0);
    TimesMonotone(alpha, target, 1.0);
    TimesMonotone(1.0 - alpha, 0.0, current);
    TimesMonotone(alpha, 0.0, target);
    TimesZero(alpha);
    TimesZero(1.0 - alpha);
    TimesOne(alpha);
    TimesOne(1.0 - alpha);
  }

  /** The estimate of one pair after a sequence of bootstrap targets. */
  function Settle(alpha: real, start: real, targets: seq<real>): real {
    if targets == [] then start
    else Blend(alpha, Settle(alpha, start, targets[..|targets| - 1]), targets[|targets| - 1])
  }

  /** Every update moves the pair it is about by that blend, and no other pair. */
  lemma {:induction false} LearnIsLocal<K>(q: Table<K>, alpha: real, init: real, dest: K, peer: K, target: real, d: K,
      v: K)
    ensures Estimate(Learn(q, alpha, init, dest, peer, target), init, d, v)
      == if d == dest && v == peer then Settle(alpha, Estimate(q, init, d, v), [target]) else Estimate(q, init, d, v)
  {
    assert [target][..0] == [];
    assert Settle(alpha, Estimate(q, init, d, v), [target]) == Blend(alpha, Estimate(q, init, d, v), target);
  }

  lemma BlendShrinksGap(alpha: real, current: real, target: real)
    ensures Blend(alpha, current, target) - target == Times(1.0 - alpha, current - target)
  {
  }

  /** Under a repeated target the distance to it falls by the factor 1 - alpha at
      every update: repeated failure drives an estimate to 0, repeated success to
      the advertised value. */
  lemma {:induction false} GapShrinks(alpha: real, start: real, target: real, targets: seq<real>)
    requires forall i :: 0 <= i < |targets| ==> targets[i] == target
    ensures Settle(alpha, start, targets) - target == Times(Pow(1.0 - alpha, |targets|), start - target)
  {
    hide Times, Blend;
    if targets == [] {
      TimesOne(start - target);
    } else {
      var front := targets[..|targets| - 1];
      GapShrinks(alpha, start, target, front);
      BlendShrinksGap(alpha, Settle(alpha, start, front), target);
      TimesAssociative(1.0 - alpha, Pow(1.0 - alpha, |front|), start - target);
      PowStep(1.0 - alpha, |front|);
    }
  }

  lemma BlendReachesOne(alpha: real, current: real, target: real)
    requires 0.0 < alpha < 1.0 && current <= 1.0 && target <= 1.0
    ensures Blend(alpha, current, target) <= 1.0
    ensures Blend(alpha, current, target) == 1.0 <==> current == 1.0 && target == 1.0
  {
    hide Times;
    TimesOne(alpha);
    TimesOne(1.0 - alpha);
    TimesMonotone(1.0 - alpha, current, 1.0);
    TimesMonotone(alpha, target, 1.0);
    if current < 1.0 {
      TimesPositive(1.0 - alpha, 1.0 - current);
      TimesDistributes(1.0 - alpha, 1.0, current);
    }
    if target < 1.0 {
      TimesPositive(alpha, 1.0 - target);
      TimesDistributes(alpha, 1.0, target);
    }
  }

  /** Optimism: a pair never tried scores at least as high as one that has been,
      and ties with it exactly when every outcome so far was perfect. */
  lemma {:induction false} UnseenTiesIffPerfect(alpha: real, targets: seq<real>)
    requires 0.0 < alpha < 1.0 && forall i :: 0 <= i < |targets| ==> targets[i] <= 1.0
    ensures Settle(alpha, Q_INIT, targets) <= Q_INIT
    ensures Settle(alpha, Q_INIT, targets) == Q_INIT <==> forall i :: 0 <= i < |targets| ==> targets[i] == 1.0
  {
    if targets != [] {
      var front := targets[..|targets| - 1];
      UnseenTiesIffPerfect(alpha, front);
      BlendReachesOne(alpha, Settle(alpha, Q_INIT, front), targets[|targets| - 1]);
      assert forall i :: 0 <= i < |front| ==> front[i] == targets[i];
    }
  }

  lemma {:induction false} BestInUnit<K>(q: Table<K>, init: real, dest: K, peers: seq<K>)
    requires TableInUnit(q) && 0.0 <= init <= 1.0
    ensures 0.0 <= BestEstimate(q, init, dest, peers) <= 1.0
  {
    if peers != [] {
      BestInUnit(q, init, dest, peers[..|peers| - 1]);
    }
  }

  // ----- The router's state -----

  class QRoutingState {
    var q: Table<string>

    constructor ()
      ensures q == map[]
    {
      q := map[];
    }

    function Get(dest: string, peer: string): real
      reads this
    {
      Estimate(q, Q_INIT, dest, peer)
    }

    method BestOver(dest: string, neighbours: seq<string>) returns (best: real)
      ensures best == BestEstimate(q, Q_INIT, dest, neighbours)
      ensures IsMaximum(best, q, Q_INIT, dest, neighbours)
    {
      best := 0.0;
      for i := 0 to |neighbours|
        invariant best == BestEstimate(q, Q_INIT, dest, neighbours[..i])
      {
        assert neighbours[..i + 1][..i] == neighbours[..i];
        best := Max(best, Get(dest, neighbours[i]));
      }
      assert neighbours[..|neighbours|] == neighbours;
      BestIsMaximum(q, Q_INIT, dest, neighbours);
    }

    method Record(dest: string, peer: string, delivered: bool, downstream: real)
      modifies this
      ensures q == Learn(old(q), Q_ALPHA, Q_INIT, dest, peer, if delivered then downstream else 0.0)
    {
      var target := if delivered then downstream else 0.0;
      q := q[(dest, peer) := Times(1.0 - Q_ALPHA, Get(dest, peer)) + Times(Q_ALPHA, target)];
    }
  }

  // ----- The benchmark's tables -----

  /** What node `v` advertises for `dest`; certainty at the destination. */
  function Advertised(tables: seq<Table<nat>>, init: real, net: Network, v: nat, dest: nat): real
    requires net.Valid() && |tables| == net.n && v < net.n
  {
    if v == dest then 1.0 else BestEstimate(tables[v], init, dest, net.neighbours[v])
  }

  class QTables {
    var tables: seq<Table<nat>>
    const alpha: real
    const init: real

    constructor (n: nat, alpha: real, init: real)
      ensures this.alpha == alpha && this.init == init
      ensures tables == seq(n, _ => map[])
    {
      this.alpha, this.init := alpha, init;
      tables := seq(n, _ => map[]);
    }

    function Get(u: nat, dest: nat, v: nat): real
      requires u < |tables|
      reads this
    {
      Estimate(tables[u], init, dest, v)
    }

    method Best(net: Network, v: nat, dest: nat) returns (best: real)
      requires net.Valid() && |tables| == net.n && v < net.n
      ensures best == Advertised(tables, init, net, v, dest)
      ensures v == dest ==> best == 1.0
      ensures v != dest ==> IsMaximum(best, tables[v], init, dest, net.neighbours[v])
    {
      if v == dest {
        return 1.0;
      }
      best := 0.0;
      var nbrs := net.neighbours[v];
      for i := 0 to |nbrs|
        invariant best == BestEstimate(tables[v], init, dest, nbrs[..i])
      {
        assert nbrs[..i + 1][..i] == nbrs[..i];
        best := Max(best, Get(v, dest, nbrs[i]));
      }
      assert nbrs[..|nbrs|] == nbrs;
      BestIsMaximum(tables[v], init, dest, nbrs);
    }

    method Update(u: nat, dest: nat, v: nat, target: real)
      requires u < |tables|
      modifies this
      ensures tables == old(tables)[u := Learn(old(tables[u]), alpha, init, dest, v, target)]
    {
      var current := Get(u, dest, v);
      tables := tables[u := tables[u][(dest, v) := Times(1.0 - alpha, current) + Times(alpha, target)]];
    }
  }

  // ----- Runs: the same hops reported to both -----

  /** Node `from` handed a message for `dest` to `to`, and the hop survived or not. */
  datatype Hop = Hop(from: nat, dest: nat, to: nat, survived: bool)

  /** A routing decision: a link is used, and never by the destination itself. */
  predicate IsDecision(net: Network, h: Hop) {
    && h.from < net.n && h.dest < net.n && h.to < net.n
    && |net.neighbours| == net.n && h.to in net.neighbours[h.from] && h.from != h.dest
  }

  predicate AreDecisions(net: Network, hops: seq<Hop>) {
    forall i :: 0 <= i < |hops| ==> IsDecision(net, hops[i])
  }

  function TablesStep(net: Network, tables: seq<Table<nat>>, alpha: real, init: real, h: Hop): (r: seq<Table<nat>>)
    requires net.Valid() && |tables| == net.n && IsDecision(net, h)
    ensures |r| == net.n
  {
    var target := if h.survived then Advertised(tables, init, net, h.to, h.dest) else 0.0;
    tables[h.from := Learn(tables[h.from], alpha, init, h.dest, h.to, target)]
  }

  function TablesAfter(net: Network, tables: seq<Table<nat>>, alpha: real, init: real, hops: seq<Hop>)
    : (r: seq<Table<nat>>)
    requires net.Valid() && |tables| == net.n && AreDecisions(net, hops)
    ensures |r| == net.n
  {
    if hops == [] then tables
    else TablesStep(net, TablesAfter(net, tables, alpha, init, hops[..|hops| - 1]), alpha, init, hops[|hops| - 1])
  }

  function Names(nodes: seq<nat>): (r: seq<string>)
    ensures |r| == |nodes|
  {
    seq(|nodes|, i requires 0 <= i < |nodes| => NodeName(nodes[i]))
  }

  /** What a node's router advertises: it has no rule for being the destination. */
  function RouterAdvertises(states: seq<Table<string>>, net: Network, v: nat, dest: nat): real
    requires net.Valid() && |states| == net.n && v < net.n
  {
    BestEstimate(states[v], Q_INIT, NodeName(dest), Names(net.neighbours[v]))
  }

  function RoutersStep(net: Network, states: seq<Table<string>>, h: Hop): (r: seq<Table<string>>)
    requires net.Valid() && |states| == net.n && IsDecision(net, h)
    ensures |r| == net.n
  {
    var target := if h.survived then RouterAdvertises(states, net, h.to, h.dest) else 0.0;
    states[h.from := Learn(states[h.from], Q_ALPHA, Q_INIT, NodeName(h.dest), NodeName(h.to), target)]
  }

  function RoutersAfter(net: Network, hops: seq<Hop>): (r: seq<Table<string>>)
    requires net.Valid() && AreDecisions(net, hops)
    ensures |r| == net.n
  {
    if hops == [] then seq(net.n, _ => map[])
    else RoutersStep(net, RoutersAfter(net, hops[..|hops| - 1]), hops[|hops| - 1])
  }

  /** The same estimates under node names. */
  ghost predicate SameEstimates(q: Table<nat>, s: Table<string>) {
    forall dest, v ::
      Estimate(q, Q_INIT, dest, v) == Estimate(s, Q_INIT, NodeName(dest), NodeName(v))
  }

  lemma LearnSame(q: Table<nat>, s: Table<string>, dest: nat, v: nat, target: real)
    requires SameEstimates(q, s)
    ensures SameEstimates(Learn(q, Q_ALPHA, Q_INIT, dest, v, target),
                          Learn(s, Q_ALPHA, Q_INIT, NodeName(dest), NodeName(v), target))
  {
    hide Times, NodeName;
    forall d: nat, w: nat
      ensures Estimate(Learn(q, Q_ALPHA, Q_INIT, dest, v, target), Q_INIT, d, w)
           == Estimate(Learn(s, Q_ALPHA, Q_INIT, NodeName(dest), NodeName(v), target), Q_INIT, NodeName(d), NodeName(w))
    {
      NamesAreDistinct(d, dest);
      NamesAreDistinct(w, v);
    }
  }

  lemma {:induction false} BestSame(q: Table<nat>, s: Table<string>, dest: nat, peers: seq<nat>)
    requires SameEstimates(q, s)
    ensures BestEstimate(q, Q_INIT, dest, peers) == BestEstimate(s, Q_INIT, NodeName(dest), Names(peers))
  {
    hide NodeName;
    if peers != [] {
      BestSame(q, s, dest, peers[..|peers| - 1]);
      assert Names(peers)[..|peers| - 1] == Names(peers[..|peers| - 1]);
    }
  }

  /** Node `v` has never recorded anything about itself as a destination. */
  predicate NothingAboutItself(q: Table<nat>, v: nat) {
    forall e :: e in q ==> e.0 != v
  }

  lemma {:induction false} UntouchedIsCertain(q: Table<nat>, v: nat, peers: seq<nat>)
    requires NothingAboutItself(q, v)
    ensures BestEstimate(q, Q_INIT, v, peers) == if peers == [] then 0.0 else 1.0
  {
    if peers != [] {
      UntouchedIsCertain(q, v, peers[..|peers| - 1]);
    }
  }

  /** No node is reachable without having a neighbour to answer to. */
  predicate NobodyIsolated(net: Network) {
    |net.neighbours| == net.n && forall v :: 0 <= v < net.n ==> net.neighbours[v] != []
  }

  ghost predicate InStep(net: Network, tables: seq<Table<nat>>, states: seq<Table<string>>) {
    && |tables| == |states| == net.n
    && forall v :: 0 <= v < net.n ==>
         SameEstimates(tables[v], states[v]) && NothingAboutItself(tables[v], v) && TableInUnit(tables[v])
  }

  lemma SameAdvertisement(net: Network, tables: seq<Table<nat>>, states: seq<Table<string>>, v: nat, dest: nat)
    requires net.Valid() && NobodyIsolated(net) && InStep(net, tables, states) && v < net.n
    ensures Advertised(tables, Q_INIT, net, v, dest) == RouterAdvertises(states, net, v, dest)
    ensures 0.0 <= Advertised(tables, Q_INIT, net, v, dest) <= 1.0
  {
    BestSame(tables[v], states[v], dest, net.neighbours[v]);
    BestInUnit(tables[v], Q_INIT, dest, net.neighbours[v]);
    UntouchedIsCertain(tables[v], v, net.neighbours[v]);
  }

  lemma StepStaysInStep(net: Network, tables: seq<Table<nat>>, states: seq<Table<string>>, h: Hop)
    requires net.Valid() && NobodyIsolated(net) && InStep(net, tables, states) && IsDecision(net, h)
    ensures InStep(net, TablesStep(net, tables, Q_ALPHA, Q_INIT, h), RoutersStep(net, states, h))
  {
    hide Times, NodeName;
    SameAdvertisement(net, tables, states, h.to, h.dest);
    var target := if h.survived then Advertised(tables, Q_INIT, net, h.to, h.dest) else 0.0;
    LearnSame(tables[h.from], states[h.from], h.dest, h.to, target);
    BlendInUnit(Q_ALPHA, Estimate(tables[h.from], Q_INIT, h.dest, h.to), target);
  }

  /** Over every run of routing decisions, with the default learning rate and
      initial value, the benchmark's tables and the routers' states hold the same
      estimates, all of them probabilities, and advertise the same values, also
      at the destination itself. */
  lemma {:induction false} TablesMatchRouters(net: Network, hops: seq<Hop>)
    requires net.Valid() && NobodyIsolated(net) && AreDecisions(net, hops)
    ensures var tables, states := TablesAfter(net, seq(net.n, _ => map[]), Q_ALPHA, Q_INIT, hops),
      RoutersAfter(net, hops);
      && InStep(net, tables, states)
      && forall v: nat, dest: nat :: v < net.n ==>
           Advertised(tables, Q_INIT, net, v, dest) == RouterAdvertises(states, net, v, dest)
  {
    var tables, states := TablesAfter(net, seq(net.n, _ => map[]), Q_ALPHA, Q_INIT, hops), RoutersAfter(net, hops);
    if hops != [] {
      var front := hops[..|hops| - 1];
      TablesMatchRouters(net, front);
      StepStaysInStep(net, TablesAfter(net, seq(net.n, _ => map[]), Q_ALPHA, Q_INIT, front),
        RoutersAfter(net, front), hops[|hops| - 1]);
    }
    forall v: nat, dest: nat | v < net.n
      ensures Advertised(tables, Q_INIT, net, v, dest) == RouterAdvertises(states, net, v, dest)
    {
      SameAdvertisement(net, tables, states, v, dest);
    }
  }
}
