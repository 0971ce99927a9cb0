/** Four delivery schemes over one contact trace, message by message: the
    foremost-journey oracle, epidemic copying, PRoPHET and direct delivery. */
module Delivery {
  import opened ContactTraces
  import opened Finite
  import opened Journeys

  datatype Msg = Msg(src: nat, dst: nat, gen: real)

  /** Who holds a copy of one message, when it was delivered, and how many
      transmissions it has cost. */
  datatype Copies = Copies(holders: set<nat>, delivered: Arrival, sent: nat)

  function Injected(m: Msg): Copies {
    Copies({m.src}, Never, 0)
  }

  /** The contact starts within the message's lifetime. */
  predicate InWindow(c: Contact, m: Msg, deadline: real) {
    m.gen <= c.start && c.start - m.gen <= deadline
  }

  /** The end of `c` that would receive a copy, if exactly one end holds one. */
  function Peer(s: Copies, c: Contact): nat {
    if c.a in s.holders then c.b else c.a
  }

  function Holder(s: Copies, c: Contact): nat {
    if c.a in s.holders then c.a else c.b
  }

  /** One contact for one message; `relay` says whether a peer other than the
      destination is given a copy. */
  function Meet(s: Copies, c: Contact, m: Msg, relay: bool): Copies {
    if (c.a in s.holders) == (c.b in s.holders) then s
    else if Peer(s, c) == m.dst then
      Copies(s.holders + {m.dst}, if s.delivered.Never? then At(c.start) else s.delivered, s.sent + 1)
    else if relay then s.(holders := s.holders + {Peer(s, c)}, sent := s.sent + 1)
    else s
  }

  function Epidemic(cs: seq<Contact>, k: nat, m: Msg, deadline: real): Copies
    requires k <= |cs|
  {
    if k == 0 then Injected(m) else
      var s := Epidemic(cs, k - 1, m, deadline);
      if InWindow(cs[k - 1], m, deadline) then Meet(s, cs[k - 1], m, true) else s
  }

  /** Delivery ends the life of the message. */
  function DirectStep(s: Copies, c: Contact, m: Msg, deadline: real): Copies {
    if s.delivered.Never? && InWindow(c, m, deadline) then Meet(s, c, m, false) else s
  }

  function Direct(cs: seq<Contact>, k: nat, m: Msg, deadline: real): Copies
    requires k <= |cs|
  {
    if k == 0 then Injected(m) else DirectStep(Direct(cs, k - 1, m, deadline), cs[k - 1], m, deadline)
  }

  type Matrix = seq<seq<real>>

  predicate Square(p: Matrix, n: nat) {
    |p| == n && forall i :: 0 <= i < n ==> |p[i]| == n
  }

  /** `history[i]` is the predictability matrix in force at contact `i`. */
  predicate ValidHistory(history: seq<Matrix>, n: nat) {
    forall i :: 0 <= i < |history| ==> Square(history[i], n)
  }

  /** One contact of the PRoPHET run: deliver, or relay to a likelier peer. */
  function ProphetStep(s: Copies, c: Contact, n: nat, m: Msg, deadline: real, p: Matrix): Copies
    requires Square(p, n) && c.a < n && c.b < n && m.dst < n
  {
    if s.delivered.Never? && InWindow(c, m, deadline)
    then Meet(s, c, m, p[Peer(s, c)][m.dst] > p[Holder(s, c)][m.dst])
    else s
  }

  function Prophet(cs: seq<Contact>, k: nat, n: nat, m: Msg, deadline: real, history: seq<Matrix>): Copies
    requires k <= |cs| && k <= |history| && ValidHistory(history, n)
    requires InRange(cs, n) && m.dst < n
  {
    if k == 0 then Injected(m)
    else ProphetStep(Prophet(cs, k - 1, n, m, deadline, history), cs[k - 1], n, m, deadline, history[k - 1])
  }

  /** The oracle: foremost arrival, if within the deadline. */
  function OracleDelivery(trace: ContactTrace, m: Msg, deadline: real): Arrival
    requires InRange(trace.contacts, trace.n) && m.src < trace.n && m.dst < trace.n
  {
    var arrival := Scan(trace.contacts, |trace.contacts|, trace.n, m.src, m.gen)[m.dst];
    if arrival.At? && arrival.time - m.gen <= deadline then arrival else Never
  }

  /** Some journey in index order takes `m` to its destination by `latest`. */
  ghost predicate ArrivesBy(cs: seq<Contact>, m: Msg, latest: real) {
    exists j :: Ordered(cs, |cs|, m.src, m.gen, m.dst, j) && Time(j, m.gen) <= latest
  }

  /** What the oracle reports: a delivery exactly when some journey in index order
      arrives within the deadline, and then at the least arrival of all. */
  lemma OracleMeaning(trace: ContactTrace, m: Msg, deadline: real)
    requires InRange(trace.contacts, trace.n) && m.src < trace.n && m.dst < trace.n
    ensures var d := OracleDelivery(trace, m, deadline);
      && (d.At? <==> ArrivesBy(trace.contacts, m, m.gen + deadline))
      && (d.At? ==> ArrivesBy(trace.contacts, m, d.time) && m.gen <= d.time <= m.gen + deadline)
      && (d.At? ==> forall j :: Ordered(trace.contacts, |trace.contacts|, m.src, m.gen, m.dst, j) ==>
            d.time <= Time(j, m.gen))
  {
    var cs := trace.contacts;
    PrefixExact(cs, |cs|, trace.n, m.src, m.gen, m.dst);
    ScanAfterCreation(cs, |cs|, trace.n, m.src, m.gen);
  }

  // ----- Ordering, message by message -----

  /** Whoever holds an epidemic copy could have been reached by now. */
  ghost predicate Reached(cs: seq<Contact>, k: nat, n: nat, m: Msg, v: nat, now: real)
    requires k <= |cs| && InRange(cs, n) && m.src < n
  {
    v < n && Scan(cs, k, n, m.src, m.gen)[v].NoLaterThan(At(now))
  }

  lemma {:induction false} HoldersAreReached(cs: seq<Contact>, k: nat, n: nat, m: Msg, deadline: real, v: nat,
      now: real)
    requires k <= |cs| && InRange(cs, n) && SortedByStart(cs) && Forward(cs) && m.src < n
    requires v in Epidemic(cs, k, m, deadline).holders
    requires m.gen <= now && forall i :: 0 <= i < k ==> cs[i].start <= now
    ensures Reached(cs, k, n, m, v, now)
  {
    if k == 0 {
    } else {
      var c, s := cs[k - 1], Epidemic(cs, k - 1, m, deadline);
      ScanImproves(cs, k - 1, k, n, m.src, m.gen);
      if v in s.holders {
        HoldersAreReached(cs, k - 1, n, m, deadline, v, now);
      } else {
        HoldersAreReached(cs, k - 1, n, m, deadline, Holder(s, c), c.start);
      }
    }
  }

  lemma {:induction false} EpidemicDeliveryIsReached(cs: seq<Contact>, k: nat, n: nat, m: Msg, deadline: real)
    requires k <= |cs| && InRange(cs, n) && SortedByStart(cs) && Forward(cs) && m.src < n
    requires Epidemic(cs, k, m, deadline).delivered.At?
    ensures var t := Epidemic(cs, k, m, deadline).delivered.time;
      Reached(cs, k, n, m, m.dst, t) && t - m.gen <= deadline
  {
    var c, s := cs[k - 1], Epidemic(cs, k - 1, m, deadline);
    ScanImproves(cs, k - 1, k, n, m.src, m.gen);
    if s.delivered.At? {
      EpidemicDeliveryIsReached(cs, k - 1, n, m, deadline);
    } else {
      HoldersAreReached(cs, k, n, m, deadline, m.dst, c.start);
    }
  }

  /** How one scheme's copies dominate another's after the same contacts. */
  predicate Dominates(wide: Copies, narrow: Copies) {
    && narrow.holders <= wide.holders
    && wide.delivered.NoLaterThan(narrow.delivered)
  }

  /** What every scheme keeps: one transmission per extra holder, and the
      destination holds a copy exactly when it has been delivered. */
  predicate Conserves(s: Copies, n: nat, m: Msg) {
    && m.src in s.holders
    && s.sent + 1 == |s.holders|
    && (forall v :: v in s.holders ==> v < n)
    && (m.src != m.dst ==> (s.delivered.At? <==> m.dst in s.holders))
  }

  lemma MeetConserves(s: Copies, c: Contact, n: nat, m: Msg, relay: bool)
    requires Conserves(s, n, m) && c.a < n && c.b < n
    ensures Conserves(Meet(s, c, m, relay), n, m)
  {
  }

  lemma {:induction false} SchemesConserve(cs: seq<Contact>, k: nat, n: nat, m: Msg, deadline: real,
      history: seq<Matrix>)
    requires k <= |cs| && k <= |history| && ValidHistory(history, n)
    requires InRange(cs, n) && m.src < n && m.dst < n
    ensures Conserves(Epidemic(cs, k, m, deadline), n, m)
    ensures Conserves(Prophet(cs, k, n, m, deadline, history), n, m)
    ensures Conserves(Direct(cs, k, m, deadline), n, m)
  {
    if k > 0 {
      SchemesConserve(cs, k - 1, n, m, deadline, history);
      var c := cs[k - 1];
      MeetConserves(Epidemic(cs, k - 1, m, deadline), c, n, m, true);
      var s, p := Prophet(cs, k - 1, n, m, deadline, history), history[k - 1];
      MeetConserves(s, c, n, m, p[Peer(s, c)][m.dst] > p[Holder(s, c)][m.dst]);
      MeetConserves(Direct(cs, k - 1, m, deadline), c, n, m, false);
    }
  }

  /** Copying to everyone keeps up with any scheme, whatever it relays. */
  lemma EpidemicKeepsUp(wide: Copies, narrow: Copies, c: Contact, n: nat, m: Msg, relay: bool)
    requires m.src != m.dst && Dominates(wide, narrow) && Conserves(wide, n, m) && Conserves(narrow, n, m)
    requires wide.delivered.NoLaterThan(At(c.start)) || wide.delivered.Never?
    ensures Dominates(Meet(wide, c, m, true), Meet(narrow, c, m, relay))
  {
  }

  /** A scheme that has not delivered yet delivers whenever direct delivery does. */
  lemma DirectIsWeakest(wide: Copies, narrow: Copies, c: Contact, n: nat, m: Msg, relay: bool)
    requires m.src != m.dst && Dominates(wide, narrow) && Conserves(wide, n, m) && Conserves(narrow, n, m)
    requires wide.delivered.Never?
    ensures Dominates(Meet(wide, c, m, relay), Meet(narrow, c, m, false))
  {
  }

  lemma {:induction false} DeliveredInThePast(cs: seq<Contact>, k: nat, m: Msg, deadline: real, now: real)
    requires k <= |cs| && forall i :: 0 <= i < k ==> cs[i].start <= now
    ensures Epidemic(cs, k, m, deadline).delivered.At? ==> Epidemic(cs, k, m, deadline).delivered.time <= now
  {
    if k > 0 {
      DeliveredInThePast(cs, k - 1, m, deadline, now);
    }
  }

  lemma {:induction false} ProphetDeliveredInThePast(cs: seq<Contact>, k: nat, n: nat, m: Msg, deadline: real,
      history: seq<Matrix>, now: real)
    requires k <= |cs| && k <= |history| && ValidHistory(history, n) && InRange(cs, n) && m.dst < n
    requires forall i :: 0 <= i < k ==> cs[i].start <= now
    ensures var s := Prophet(cs, k, n, m, deadline, history); s.delivered.At? ==> s.delivered.time <= now
  {
    if k > 0 {
      ProphetDeliveredInThePast(cs, k - 1, n, m, deadline, history, now);
    }
  }

  /** After every prefix of a sorted trace: epidemic covers PRoPHET. */
  lemma {:induction false} EpidemicDominatesProphet(cs: seq<Contact>, k: nat, n: nat, m: Msg, deadline: real,
      history: seq<Matrix>)
    requires k <= |cs| && k <= |history| && ValidHistory(history, n)
    requires InRange(cs, n) && SortedByStart(cs) && m.src < n && m.dst < n && m.src != m.dst
    ensures Dominates(Epidemic(cs, k, m, deadline), Prophet(cs, k, n, m, deadline, history))
  {
    if k > 0 {
      EpidemicDominatesProphet(cs, k - 1, n, m, deadline, history);
      SchemesConserve(cs, k - 1, n, m, deadline, history);
      var c, p := cs[k - 1], history[k - 1];
      DeliveredInThePast(cs, k - 1, m, deadline, c.start);
      var e, s := Epidemic(cs, k - 1, m, deadline), Prophet(cs, k - 1, n, m, deadline, history);
      EpidemicKeepsUp(e, s, c, n, m, p[Peer(s, c)][m.dst] > p[Holder(s, c)][m.dst]);
    }
  }

  lemma DirectStepIsCovered(s: Copies, d: Copies, c: Contact, n: nat, m: Msg, deadline: real, p: Matrix)
    requires Square(p, n) && c.a < n && c.b < n && m.dst < n && m.src != m.dst
    requires Dominates(s, d) && Conserves(s, n, m) && Conserves(d, n, m) && d.holders <= {m.src, m.dst}
    requires s.delivered.At? ==> s.delivered.time <= c.start
    ensures Dominates(ProphetStep(s, c, n, m, deadline, p), DirectStep(d, c, m, deadline))
    ensures DirectStep(d, c, m, deadline).holders <= {m.src, m.dst}
  {
    if s.delivered.Never? && InWindow(c, m, deadline) {
      DirectIsWeakest(s, d, c, n, m, p[Peer(s, c)][m.dst] > p[Holder(s, c)][m.dst]);
    }
  }

  /** After every prefix of a sorted trace: PRoPHET covers direct delivery. */
  lemma {:induction false} ProphetDominatesDirect(cs: seq<Contact>, k: nat, n: nat, m: Msg, deadline: real,
      history: seq<Matrix>)
    requires k <= |cs| && k <= |history| && ValidHistory(history, n)
    requires InRange(cs, n) && SortedByStart(cs) && m.src < n && m.dst < n && m.src != m.dst
    ensures Dominates(Prophet(cs, k, n, m, deadline, history), Direct(cs, k, m, deadline))
    ensures Direct(cs, k, m, deadline).holders <= {m.src, m.dst}
  {
    if k > 0 {
      hide Meet, ProphetStep, Conserves, Dominates;
      ProphetDominatesDirect(cs, k - 1, n, m, deadline, history);
      SchemesConserve(cs, k - 1, n, m, deadline, history);
      ProphetDeliveredInThePast(cs, k - 1, n, m, deadline, history, cs[k - 1].start);
      DirectStepIsCovered(Prophet(cs, k - 1, n, m, deadline, history), Direct(cs, k - 1, m, deadline),
                          cs[k - 1], n, m, deadline, history[k - 1]);
    }
  }

  /** Oracle, epidemic, PRoPHET, direct: for every message, deadline and
      predictability history, each delivers no later than the next one. */
  lemma {:induction false} DeliveryOrder(trace: ContactTrace, m: Msg, deadline: real, history: seq<Matrix>)
    requires trace.Valid() && Forward(trace.contacts)
    requires m.src < trace.n && m.dst < trace.n && m.src != m.dst
    requires |history| == |trace.contacts| && ValidHistory(history, trace.n)
    ensures var cs, k := trace.contacts, |trace.contacts|;
      && OracleDelivery(trace, m, deadline).NoLaterThan(Epidemic(cs, k, m, deadline).delivered)
      && Epidemic(cs, k, m, deadline).delivered.NoLaterThan(Prophet(cs, k, trace.n, m, deadline, history).delivered)
      && Prophet(cs, k, trace.n, m, deadline, history).delivered.NoLaterThan(Direct(cs, k, m, deadline).delivered)
  {
    var cs, k := trace.contacts, |trace.contacts|;
    if Epidemic(cs, k, m, deadline).delivered.At? {
      EpidemicDeliveryIsReached(cs, k, trace.n, m, deadline);
    }
    EpidemicDominatesProphet(cs, k, trace.n, m, deadline, history);
    ProphetDominatesDirect(cs, k, trace.n, m, deadline, history);
  }

  /** Each scheme has sent one copy per holder beyond the source, and the four
      costs are ordered the other way round from the delays. */
  lemma {:induction false} TransmissionOrder(trace: ContactTrace, m: Msg, deadline: real, history: seq<Matrix>)
    requires trace.Valid() && m.src < trace.n && m.dst < trace.n && m.src != m.dst
    requires |history| == |trace.contacts| && ValidHistory(history, trace.n)
    ensures var cs, k := trace.contacts, |trace.contacts|;
      var e, p, d := Epidemic(cs, k, m, deadline), Prophet(cs, k, trace.n, m, deadline, history),
        Direct(cs, k, m, deadline);
      && e.sent == |e.holders| - 1 && p.sent == |p.holders| - 1 && d.sent == |d.holders| - 1
      && d.sent <= p.sent <= e.sent <= trace.n - 1
      && d.sent <= 1
  {
    var cs, k := trace.contacts, |trace.contacts|;
    var e, p, d := Epidemic(cs, k, m, deadline), Prophet(cs, k, trace.n, m, deadline, history),
      Direct(cs, k, m, deadline);
    SchemesConserve(cs, k, trace.n, m, deadline, history);
    EpidemicDominatesProphet(cs, k, trace.n, m, deadline, history);
    ProphetDominatesDirect(cs, k, trace.n, m, deadline, history);
    SubsetSize(d.holders, p.holders);
    SubsetSize(p.holders, e.holders);
    SubsetSize(d.holders, {m.src, m.dst});
    SubsetSize(e.holders, Nodes(trace.n));
  }

  /** An interval that ends before it starts is used by the epidemic run, which
      reads only its start, but not by the oracle. For a trace of one contact the
      oracle bounds epidemic delivery for every message and deadline if and only
      if the interval runs forward. */
  lemma OneContactBoundIffForward(c: Contact, n: nat, duration: real)
    requires c.a < c.b < n
    ensures var trace := ContactTrace(n, duration, [c]);
      (forall m: Msg, deadline: real :: m.src < n && m.dst < n ==>
         OracleDelivery(trace, m, deadline).NoLaterThan(Epidemic([c], 1, m, deadline).delivered)) <==> c.start <= c.end
  {
    var trace := ContactTrace(n, duration, [c]);
    if c.start <= c.end {
      forall m: Msg, deadline: real | m.src < n && m.dst < n
        ensures OracleDelivery(trace, m, deadline).NoLaterThan(Epidemic([c], 1, m, deadline).delivered)
      {
        if Epidemic([c], 1, m, deadline).delivered.At? {
          EpidemicDeliveryIsReached([c], 1, n, m, deadline);
        }
      }
    } else {
      var m := Msg(c.a, c.b, c.start);
      assert Epidemic([c], 0, m, 0.0) == Injected(m);
      assert Epidemic([c], 1, m, 0.0).delivered == At(c.start);
      assert Scan([c], 0, n, c.a, c.start)[c.b] == Never;
      assert OracleDelivery(trace, m, 0.0) == Never;
    }
  }
}
