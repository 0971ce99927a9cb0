/** The trace benchmark's three runs, each proved to tally the per-message
    outcomes of its scheme, and the ordering of the tallies. */
module TraceBench {
  import opened ContactTraces
  import opened Finite
  import opened Journeys
  import opened Delivery
  import opened Predictability

  datatype Stat = Stat(delivered: nat, total: nat, delaySum: real, transmissions: nat)

  predicate ValidMsgs(msgs: seq<Msg>, n: nat) {
    forall i :: 0 <= i < |msgs| ==> msgs[i].src < n && msgs[i].dst < n
  }

  function Count(st: Stat, delivered: Arrival, gen: real, sent: nat): Stat {
    var counted := st.(transmissions := st.transmissions + sent);
    if delivered.At?
    then counted.(delivered := counted.delivered + 1, delaySum := counted.delaySum + (delivered.time - gen))
    else counted
  }

  /** The statistics of the first `k` messages' outcomes. */
  function Tally(outcomes: seq<Copies>, msgs: seq<Msg>, k: nat): Stat
    requires k <= |outcomes| == |msgs|
  {
    if k == 0 then Stat(0, |msgs|, 0.0, 0)
    else Count(Tally(outcomes, msgs, k - 1), outcomes[k - 1].delivered, msgs[k - 1].gen, outcomes[k - 1].sent)
  }

  /** Tallies add up over messages. */
  lemma {:induction false} TallyAdds(a: seq<Copies>, b: seq<Copies>, am: seq<Msg>, bm: seq<Msg>, k: nat)
    requires |a| == |am| && k <= |b| == |bm|
    ensures var whole, left, right := Tally(a + b, am + bm, |a| + k), Tally(a, am, |a|), Tally(b, bm, k);
      && whole.delivered == left.delivered + right.delivered
      && whole.delaySum == left.delaySum + right.delaySum
      && whole.transmissions == left.transmissions + right.transmissions
      && whole.total == |am| + |bm|
  {
    if k == 0 {
      TallyOfPrefix(a, b, am, bm, |a|);
    } else {
      TallyAdds(a, b, am, bm, k - 1);
    }
  }

  lemma {:induction false} TallyOfPrefix(a: seq<Copies>, b: seq<Copies>, am: seq<Msg>, bm: seq<Msg>, k: nat)
    requires k <= |a| == |am| && |b| == |bm|
    ensures Tally(a + b, am + bm, k) == Tally(a, am, k).(total := |am| + |bm|)
  {
    if k > 0 {
      TallyOfPrefix(a, b, am, bm, k - 1);
    }
  }

  /** One message counts its delivery, its delay since creation, and its copies. */
  lemma TallyOfOne(o: Copies, m: Msg)
    ensures Tally([o], [m], 1) ==
      if o.delivered.At? then Stat(1, 1, o.delivered.time - m.gen, o.sent) else Stat(0, 1, 0.0, o.sent)
  {
    assert Tally([o], [m], 0) == Stat(0, 1, 0.0, 0);
  }

  /** Delays between 0 and the deadline add up to no more than the deadline for each
      delivery. */
  lemma {:induction false} DelaysAreBounded(outcomes: seq<Copies>, msgs: seq<Msg>, deadline: real, k: nat)
    requires k <= |outcomes| == |msgs|
    requires forall i :: 0 <= i < k && outcomes[i].delivered.At? ==>
      0.0 <= outcomes[i].delivered.time - msgs[i].gen <= deadline
    ensures 0.0 <= Tally(outcomes, msgs, k).delaySum
    ensures Tally(outcomes, msgs, k).delaySum <= deadline * Tally(outcomes, msgs, k).delivered as real
  {
    if k > 0 {
      DelaysAreBounded(outcomes, msgs, deadline, k - 1);
      OneMoreDelay(deadline, Tally(outcomes, msgs, k - 1).delivered);
    }
  }

  lemma OneMoreDelay(deadline: real, n: nat)
    ensures deadline * (n + 1) as real == deadline * n as real + deadline
  {
  }

  lemma {:induction false} SentOnce(outcomes: seq<Copies>, msgs: seq<Msg>, k: nat)
    requires k <= |outcomes| == |msgs| && forall i :: 0 <= i < k ==> outcomes[i].sent == 1
    ensures Tally(outcomes, msgs, k).transmissions == k
  {
    if k > 0 {
      SentOnce(outcomes, msgs, k - 1);
    }
  }

  function OracleOutcomes(trace: ContactTrace, msgs: seq<Msg>, deadline: real): (r: seq<Copies>)
    requires InRange(trace.contacts, trace.n) && ValidMsgs(msgs, trace.n)
    ensures |r| == |msgs|
  {
    seq(|msgs|, i requires 0 <= i < |msgs| => Copies({}, OracleDelivery(trace, msgs[i], deadline), 1))
  }

  function EpidemicOutcomes(trace: ContactTrace, msgs: seq<Msg>, deadline: real): (r: seq<Copies>)
    ensures |r| == |msgs|
  {
    seq(|msgs|, i requires 0 <= i < |msgs| => Epidemic(trace.contacts, |trace.contacts|, msgs[i], deadline))
  }

  function DirectOutcomes(trace: ContactTrace, msgs: seq<Msg>, deadline: real): (r: seq<Copies>)
    ensures |r| == |msgs|
  {
    seq(|msgs|, i requires 0 <= i < |msgs| => Direct(trace.contacts, |trace.contacts|, msgs[i], deadline))
  }

  function ProphetOutcomes(trace: ContactTrace, k: nat, msgs: seq<Msg>, deadline: real): (r: seq<Copies>)
    requires InRange(trace.contacts, trace.n) && ValidMsgs(msgs, trace.n) && k <= |trace.contacts|
    ensures |r| == |msgs|
  {
    seq(|msgs|, i requires 0 <= i < |msgs| =>
      Prophet(trace.contacts, k, trace.n, msgs[i], deadline, History(trace.contacts, |trace.contacts|, trace.n)))
  }

  // ----- The tallies are ordered -----

  lemma {:induction false} TallyOrder(better: seq<Copies>, worse: seq<Copies>, msgs: seq<Msg>, k: nat)
    requires k <= |better| == |worse| == |msgs|
    requires forall i :: 0 <= i < k ==> better[i].delivered.NoLaterThan(worse[i].delivered)
    ensures Tally(better, msgs, k).delivered >= Tally(worse, msgs, k).delivered
    ensures (forall i :: 0 <= i < k ==> better[i].sent >= worse[i].sent) ==>
      Tally(better, msgs, k).transmissions >= Tally(worse, msgs, k).transmissions
  {
    if k > 0 {
      TallyOrder(better, worse, msgs, k - 1);
    }
  }

  /** The delivered count is the number of delivered messages. */
  lemma {:induction false} TallyCounts(outcomes: seq<Copies>, msgs: seq<Msg>, k: nat)
    requires k <= |outcomes| == |msgs|
    ensures Tally(outcomes, msgs, k).delivered == |DeliveredAmong(outcomes, k)|
  {
    if k > 0 {
      TallyCounts(outcomes, msgs, k - 1);
      assert DeliveredAmong(outcomes, k)
          == DeliveredAmong(outcomes, k - 1) + if outcomes[k - 1].delivered.At? then {k - 1} else {};
    }
  }

  function DeliveredAmong(outcomes: seq<Copies>, k: nat): set<nat>
    requires k <= |outcomes|
  {
    set i: nat | i < k && outcomes[i].delivered.At?
  }

  /** For every sorted trace with forward intervals, every list of messages to
      somebody else and every deadline: the oracle delivers at least as many as
      epidemic, epidemic as PRoPHET, PRoPHET as direct; and transmissions fall
      from epidemic to PRoPHET to direct. */
  lemma {:induction false} RunsAreOrdered(trace: ContactTrace, msgs: seq<Msg>, deadline: real)
    requires trace.Valid() && Forward(trace.contacts) && ValidMsgs(msgs, trace.n)
    requires forall i :: 0 <= i < |msgs| ==> msgs[i].src != msgs[i].dst
    ensures var o := Tally(OracleOutcomes(trace, msgs, deadline), msgs, |msgs|);
      var e := Tally(EpidemicOutcomes(trace, msgs, deadline), msgs, |msgs|);
      var p := Tally(ProphetOutcomes(trace, |trace.contacts|, msgs, deadline), msgs, |msgs|);
      var d := Tally(DirectOutcomes(trace, msgs, deadline), msgs, |msgs|);
      && o.delivered >= e.delivered >= p.delivered >= d.delivered
      && e.transmissions >= p.transmissions >= d.transmissions
  {
    var k, n := |trace.contacts|, trace.n;
    var history := History(trace.contacts, k, n);
    var o, e := OracleOutcomes(trace, msgs, deadline), EpidemicOutcomes(trace, msgs, deadline);
    var p, d := ProphetOutcomes(trace, k, msgs, deadline), DirectOutcomes(trace, msgs, deadline);
    forall i | 0 <= i < |msgs|
      ensures o[i].delivered.NoLaterThan(e[i].delivered)
      ensures e[i].delivered.NoLaterThan(p[i].delivered) && e[i].sent >= p[i].sent
      ensures p[i].delivered.NoLaterThan(d[i].delivered) && p[i].sent >= d[i].sent
    {
      DeliveryOrder(trace, msgs[i], deadline, history);
      TransmissionOrder(trace, msgs[i], deadline, history);
    }
    TallyOrder(o, e, msgs, |msgs|);
    TallyOrder(e, p, msgs, |msgs|);
    TallyOrder(p, d, msgs, |msgs|);
  }

  // ----- The oracle run -----

  /** The messages some journey in index order delivers within the deadline. */
  ghost function Deliverable(cs: seq<Contact>, msgs: seq<Msg>, deadline: real): set<nat> {
    set i: nat | i < |msgs| && ArrivesBy(cs, msgs[i], msgs[i].gen + deadline)
  }

  /** What the oracle's statistics say: exactly the messages that can arrive within
      the deadline are delivered, no delay exceeds it, one transmission each. */
  lemma {:induction false} OracleTally(trace: ContactTrace, msgs: seq<Msg>, deadline: real)
    requires InRange(trace.contacts, trace.n) && ValidMsgs(msgs, trace.n)
    ensures var st := Tally(OracleOutcomes(trace, msgs, deadline), msgs, |msgs|);
      && st.delivered == |Deliverable(trace.contacts, msgs, deadline)|
      && 0.0 <= st.delaySum <= deadline * st.delivered as real
      && st.transmissions == st.total == |msgs|
  {
    hide OracleDelivery, ArrivesBy;
    var outcomes := OracleOutcomes(trace, msgs, deadline);
    forall i | 0 <= i < |msgs|
      ensures outcomes[i].delivered.At? <==> ArrivesBy(trace.contacts, msgs[i], msgs[i].gen + deadline)
      ensures outcomes[i].delivered.At? ==> 0.0 <= outcomes[i].delivered.time - msgs[i].gen <= deadline
    {
      OracleMeaning(trace, msgs[i], deadline);
    }
    TallyCounts(outcomes, msgs, |msgs|);
    assert DeliveredAmong(outcomes, |msgs|) == Deliverable(trace.contacts, msgs, deadline);
    DelaysAreBounded(outcomes, msgs, deadline, |msgs|);
    SentOnce(outcomes, msgs, |msgs|);
    TotalIsLength(outcomes, msgs, |msgs|);
  }

  lemma {:induction false} TotalIsLength(outcomes: seq<Copies>, msgs: seq<Msg>, k: nat)
    requires k <= |outcomes| == |msgs|
    ensures Tally(outcomes, msgs, k).total == |msgs|
  {
    if k > 0 {
      TotalIsLength(outcomes, msgs, k - 1);
    }
  }

  method RunOracle(trace: ContactTrace, msgs: seq<Msg>, deadline: real) returns (st: Stat)
    requires InRange(trace.contacts, trace.n) && ValidMsgs(msgs, trace.n)
    ensures st == Tally(OracleOutcomes(trace, msgs, deadline), msgs, |msgs|)
    ensures st.delivered == |Deliverable(trace.contacts, msgs, deadline)|
    ensures 0.0 <= st.delaySum <= deadline * st.delivered as real && st.transmissions == st.total == |msgs|
  {
    hide Deliverable;
    st := Stat(0, |msgs|, 0.0, 0);
    for i := 0 to |msgs|
      invariant st == Tally(OracleOutcomes(trace, msgs, deadline), msgs, i)
    {
      var m := msgs[i];
      var arrival := EarliestArrival(trace, m.src, m.gen);
      var a := arrival[..][m.dst];
      if a.At? && a.time - m.gen <= deadline {
        st := st.(delivered := st.delivered + 1, delaySum := st.delaySum + (a.time - m.gen));
      }
      st := st.(transmissions := st.transmissions + 1);
    }
    OracleTally(trace, msgs, deadline);
  }

  // ----- The epidemic and direct runs -----

  function Replicated(cs: seq<Contact>, k: nat, m: Msg, deadline: real, relayAll: bool): Copies
    requires k <= |cs|
  {
    if relayAll then Epidemic(cs, k, m, deadline) else Direct(cs, k, m, deadline)
  }

  /** Nothing happens to a message past its deadline, nor to a direct one that
      has been delivered, so both runs may stop early. */
  lemma {:induction false} StoppedEarly(cs: seq<Contact>, i: nat, k: nat, m: Msg, deadline: real, relayAll: bool)
    requires i <= k <= |cs| && SortedByStart(cs)
    requires (i < |cs| && cs[i].start - m.gen > deadline) || (!relayAll && Direct(cs, i, m, deadline).delivered.At?)
    ensures Replicated(cs, k, m, deadline, relayAll) == Replicated(cs, i, m, deadline, relayAll)
    decreases k - i
  {
    if i < k {
      StoppedEarly(cs, i, k - 1, m, deadline, relayAll);
    }
  }

  /** The flags in `holding` are exactly the holders. */
  predicate Marks(holding: seq<bool>, holders: set<nat>) {
    forall v: nat :: v < |holding| ==> (holding[v] <==> v in holders)
  }

  method ReplicateOne(trace: ContactTrace, m: Msg, deadline: real, relayAll: bool)
    returns (delivered: Arrival, sent: nat)
    requires trace.Valid() && m.src < trace.n
    ensures var s := Replicated(trace.contacts, |trace.contacts|, m, deadline, relayAll);
      delivered == s.delivered && sent == s.sent
  {
    var cs := trace.contacts;
    var holding := new bool[trace.n](v => v == m.src);
    delivered, sent := Never, 0;
    var i := 0;
    while i < |cs|
      invariant i <= |cs|
      invariant Marks(holding[..], Replicated(cs, i, m, deadline, relayAll).holders)
      invariant delivered == Replicated(cs, i, m, deadline, relayAll).delivered
      invariant sent == Replicated(cs, i, m, deadline, relayAll).sent
      invariant !relayAll ==> delivered.Never?
    {
      var c := cs[i];
      if c.start < m.gen {
        i := i + 1;
        continue;
      }
      if c.start - m.gen > deadline {
        StoppedEarly(cs, i, |cs|, m, deadline, relayAll);
        return;
      }
      ghost var s := Replicated(cs, i, m, deadline, relayAll);
      assert Replicated(cs, i + 1, m, deadline, relayAll) == Meet(s, c, m, relayAll);
      var ha, hb := holding[c.a], holding[c.b];
      assert holding[..][c.a] == ha && holding[..][c.b] == hb;
      i := i + 1;
      if ha == hb {
        continue;
      }
      var peer := if ha then c.b else c.a;
      if relayAll || peer == m.dst {
        holding[peer] := true;
        sent := sent + 1;
        if peer == m.dst && delivered.Never? {
          delivered := At(c.start);
          if !relayAll {
            StoppedEarly(cs, i, |cs|, m, deadline, relayAll);
            return;
          }
        }
      }
    }
  }

  method RunReplication(trace: ContactTrace, msgs: seq<Msg>, deadline: real, relayAll: bool) returns (st: Stat)
    requires trace.Valid() && ValidMsgs(msgs, trace.n)
    ensures st == Tally(if relayAll then EpidemicOutcomes(trace, msgs, deadline)
      else DirectOutcomes(trace, msgs, deadline), msgs, |msgs|)
  {
    ghost var outcomes := if relayAll then EpidemicOutcomes(trace, msgs, deadline)
      else DirectOutcomes(trace, msgs, deadline);
    st := Stat(0, |msgs|, 0.0, 0);
    for i := 0 to |msgs|
      invariant st == Tally(outcomes, msgs, i)
    {
      var delivered, sent := ReplicateOne(trace, msgs[i], deadline, relayAll);
      st := st.(transmissions := st.transmissions + sent);
      if delivered.At? {
        st := st.(delivered := st.delivered + 1, delaySum := st.delaySum + (delivered.time - msgs[i].gen));
      }
    }
  }
}
