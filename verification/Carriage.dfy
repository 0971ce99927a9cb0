/** What the three copying schemes deliver, independently of how they run: the
    journeys a copy may make under each scheme's rule. */
module Carriage {
  import opened ContactTraces
  import opened Journeys
  import opened Delivery

  /** Who may be handed a copy: everyone, the destination only, or also a peer
      with a higher predictability for the destination. */
  datatype Rule = Everyone | DestinationOnly | Likelier(history: seq<Matrix>)

  predicate FitsTrace(rule: Rule, k: nat, n: nat) {
    rule.Likelier? ==> k <= |rule.history| && ValidHistory(rule.history, n)
  }

  predicate Allows(rule: Rule, i: nat, n: nat, u: nat, v: nat, dst: nat)
    requires FitsTrace(rule, i + 1, n) && u < n && v < n && dst < n
  {
    match rule
    case Everyone => true
    case DestinationOnly => v == dst
    case Likelier(history) => v == dst || history[i][v][dst] > history[i][u][dst]
  }

  /** A journey of a copy: contacts in order, each hop at the start of a contact
      within the lifetime of the message and allowed by the rule. */
  predicate Carried(cs: seq<Contact>, k: nat, n: nat, m: Msg, deadline: real, rule: Rule, j: Journey)
    requires k <= |cs| && InRange(cs, n) && m.src < n && m.dst < n && FitsTrace(rule, k, n)
    ensures Carried(cs, k, n, m, deadline, rule, j) ==> End(j, m.src) < n
  {
    match j
    case Start => true
    case Ride(prev, i, to, at) =>
      && i < k && LastContact(prev) < i
      && Carried(cs, i, n, m, deadline, rule, prev)
      && Joins(cs[i], End(prev, m.src), to)
      && at == cs[i].start && m.gen <= at && at - m.gen <= deadline
      && Allows(rule, i, n, End(prev, m.src), to, m.dst)
  }

  ghost predicate Reach(cs: seq<Contact>, k: nat, n: nat, m: Msg, deadline: real, rule: Rule, v: nat)
    requires k <= |cs| && InRange(cs, n) && m.src < n && m.dst < n && FitsTrace(rule, k, n)
  {
    exists j :: Carried(cs, k, n, m, deadline, rule, j) && End(j, m.src) == v
  }

  /** A copy that has reached the other end may cross contact `k` to `v`. */
  ghost predicate Crosses(cs: seq<Contact>, k: nat, n: nat, m: Msg, deadline: real, rule: Rule, u: nat, v: nat)
    requires k < |cs| && InRange(cs, n) && m.src < n && m.dst < n && FitsTrace(rule, k + 1, n)
  {
    && InWindow(cs[k], m, deadline) && Joins(cs[k], u, v)
    && Reach(cs, k, n, m, deadline, rule, u) && Allows(rule, k, n, u, v, m.dst)
  }

  /** One more contact lets a copy cross it, once. */
  lemma ReachStep(cs: seq<Contact>, k: nat, n: nat, m: Msg, deadline: real, rule: Rule, v: nat)
    requires k < |cs| && InRange(cs, n) && m.src < n && m.dst < n && FitsTrace(rule, k + 1, n)
    ensures Reach(cs, k + 1, n, m, deadline, rule, v)
      <==> Reach(cs, k, n, m, deadline, rule, v) || exists u :: Crosses(cs, k, n, m, deadline, rule, u, v)
  {
    if Reach(cs, k + 1, n, m, deadline, rule, v) {
      var j :| Carried(cs, k + 1, n, m, deadline, rule, j) && End(j, m.src) == v;
      if j.Ride? && j.contact == k {
        assert Crosses(cs, k, n, m, deadline, rule, End(j.prev, m.src), v);
      } else {
        assert Carried(cs, k, n, m, deadline, rule, j);
      }
    }
    if Reach(cs, k, n, m, deadline, rule, v) {
      var j :| Carried(cs, k, n, m, deadline, rule, j) && End(j, m.src) == v;
      assert Carried(cs, k + 1, n, m, deadline, rule, j);
    }
    if u :| Crosses(cs, k, n, m, deadline, rule, u, v) {
      var j :| Carried(cs, k, n, m, deadline, rule, j) && End(j, m.src) == u;
      LastBelow(cs, k, n, m, deadline, rule, j);
      assert Carried(cs, k + 1, n, m, deadline, rule, Ride(j, k, v, cs[k].start));
    }
  }

  lemma {:induction false} LastBelow(cs: seq<Contact>, k: nat, n: nat, m: Msg, deadline: real, rule: Rule, j: Journey)
    requires k <= |cs| && InRange(cs, n) && m.src < n && m.dst < n && FitsTrace(rule, k, n)
    requires Carried(cs, k, n, m, deadline, rule, j)
    ensures LastContact(j) < k
  {
  }

  /** The state of a scheme after `k` contacts. */
  function Scheme(cs: seq<Contact>, k: nat, n: nat, m: Msg, deadline: real, rule: Rule): Copies
    requires k <= |cs| && InRange(cs, n) && m.src < n && m.dst < n && FitsTrace(rule, k, n)
  {
    match rule
    case Everyone => Epidemic(cs, k, m, deadline)
    case DestinationOnly => Direct(cs, k, m, deadline)
    case Likelier(history) => Prophet(cs, k, n, m, deadline, history)
  }

  /** The holders are exactly the nodes a copy could have been carried to. */
  ghost predicate HoldsReach(s: Copies, cs: seq<Contact>, k: nat, n: nat, m: Msg, deadline: real, rule: Rule)
    requires k <= |cs| && InRange(cs, n) && m.src < n && m.dst < n && FitsTrace(rule, k, n)
  {
    forall v: nat :: v in s.holders <==> Reach(cs, k, n, m, deadline, rule, v)
  }

  lemma MeetHoldsReach(s: Copies, cs: seq<Contact>, k: nat, n: nat, m: Msg, deadline: real, rule: Rule, relay: bool)
    requires k < |cs| && InRange(cs, n) && m.src < n && m.dst < n && FitsTrace(rule, k + 1, n)
    requires HoldsReach(s, cs, k, n, m, deadline, rule) && InWindow(cs[k], m, deadline)
    requires Peer(s, cs[k]) != m.dst ==> relay == Allows(rule, k, n, Holder(s, cs[k]), Peer(s, cs[k]), m.dst)
    ensures HoldsReach(Meet(s, cs[k], m, relay), cs, k + 1, n, m, deadline, rule)
  {
    hide Reach;
    var c := cs[k];
    forall v: nat ensures v in Meet(s, c, m, relay).holders <==> Reach(cs, k + 1, n, m, deadline, rule, v) {
      ReachStep(cs, k, n, m, deadline, rule, v);
      if v in Meet(s, c, m, relay).holders && v !in s.holders {
        assert Crosses(cs, k, n, m, deadline, rule, Holder(s, c), v);
      }
    }
  }

  lemma ClosedHoldsReach(s: Copies, cs: seq<Contact>, k: nat, n: nat, m: Msg, deadline: real, rule: Rule)
    requires k < |cs| && InRange(cs, n) && m.src < n && m.dst < n && FitsTrace(rule, k + 1, n)
    requires HoldsReach(s, cs, k, n, m, deadline, rule) && !InWindow(cs[k], m, deadline)
    ensures HoldsReach(s, cs, k + 1, n, m, deadline, rule)
  {
    hide Reach;
    forall v: nat ensures v in s.holders <==> Reach(cs, k + 1, n, m, deadline, rule, v) {
      ReachStep(cs, k, n, m, deadline, rule, v);
    }
  }

  lemma {:induction false} StartReach(cs: seq<Contact>, n: nat, m: Msg, deadline: real, rule: Rule)
    requires InRange(cs, n) && m.src < n && m.dst < n && FitsTrace(rule, 0, n)
    ensures HoldsReach(Injected(m), cs, 0, n, m, deadline, rule)
  {
    assert Carried(cs, 0, n, m, deadline, rule, Start);
  }

  /** Until delivery, and for epidemic copying always, the holders are exactly the
      nodes a copy can be carried to under the rule. */
  lemma {:induction false} HoldersAreCarried(cs: seq<Contact>, k: nat, n: nat, m: Msg, deadline: real, rule: Rule)
    requires k <= |cs| && InRange(cs, n) && m.src < n && m.dst < n && FitsTrace(rule, k, n)
    requires rule.Everyone? || Scheme(cs, k, n, m, deadline, rule).delivered.Never?
    ensures HoldsReach(Scheme(cs, k, n, m, deadline, rule), cs, k, n, m, deadline, rule)
  {
    hide HoldsReach, Meet;
    if k == 0 {
      StartReach(cs, n, m, deadline, rule);
    } else {
      DeliveryLasts(cs, k, n, m, deadline, rule);
      HoldersAreCarried(cs, k - 1, n, m, deadline, rule);
      StepHoldsReach(cs, k, n, m, deadline, rule);
    }
  }

  /** One step of any scheme that has not stopped. */
  lemma StepHoldsReach(cs: seq<Contact>, k: nat, n: nat, m: Msg, deadline: real, rule: Rule)
    requires 0 < k <= |cs| && InRange(cs, n) && m.src < n && m.dst < n && FitsTrace(rule, k, n)
    requires rule.Everyone? || Scheme(cs, k - 1, n, m, deadline, rule).delivered.Never?
    requires HoldsReach(Scheme(cs, k - 1, n, m, deadline, rule), cs, k - 1, n, m, deadline, rule)
    ensures HoldsReach(Scheme(cs, k, n, m, deadline, rule), cs, k, n, m, deadline, rule)
  {
    hide HoldsReach, Meet;
    var s, c := Scheme(cs, k - 1, n, m, deadline, rule), cs[k - 1];
    if InWindow(c, m, deadline) {
      var relay := match rule
        case Everyone => true
        case DestinationOnly => false
        case Likelier(history) => history[k - 1][Peer(s, c)][m.dst] > history[k - 1][Holder(s, c)][m.dst];
      MeetHoldsReach(s, cs, k - 1, n, m, deadline, rule, relay);
    } else {
      ClosedHoldsReach(s, cs, k - 1, n, m, deadline, rule);
    }
  }

  lemma DeliveryLasts(cs: seq<Contact>, k: nat, n: nat, m: Msg, deadline: real, rule: Rule)
    requires 0 < k <= |cs| && InRange(cs, n) && m.src < n && m.dst < n && FitsTrace(rule, k, n)
    ensures var before := Scheme(cs, k - 1, n, m, deadline, rule).delivered;
      before.At? ==> Scheme(cs, k, n, m, deadline, rule).delivered == before
  {
  }

  /** `x` is the least time at which a copy can be carried to the destination. */
  ghost predicate IsEarliestDelivery(cs: seq<Contact>, k: nat, n: nat, m: Msg, deadline: real, rule: Rule, x: Arrival)
    requires k <= |cs| && InRange(cs, n) && m.src < n && m.dst < n && FitsTrace(rule, k, n)
  {
    && (x.At? ==> exists j ::
          Carried(cs, k, n, m, deadline, rule, j) && End(j, m.src) == m.dst && Time(j, m.gen) == x.time)
    && (forall j :: Carried(cs, k, n, m, deadline, rule, j) && End(j, m.src) == m.dst ==>
          x.NoLaterThan(At(Time(j, m.gen))))
  }

  lemma SchemeConserves(cs: seq<Contact>, k: nat, n: nat, m: Msg, deadline: real, rule: Rule)
    requires k <= |cs| && InRange(cs, n) && m.src < n && m.dst < n && FitsTrace(rule, k, n)
    ensures Conserves(Scheme(cs, k, n, m, deadline, rule), n, m)
  {
    var history := if rule.Likelier? then rule.history else seq(k, _ => seq(n, _ => seq(n, _ => 0.0)));
    SchemesConserve(cs, k, n, m, deadline, history);
  }

  /** For every sorted trace, message to somebody else, deadline and rule: the
      scheme delivers exactly when a copy can be carried to the destination, and
      at the least time at which it can. */
  lemma {:induction false} DeliversEarliest(cs: seq<Contact>, k: nat, n: nat, m: Msg, deadline: real, rule: Rule)
    requires k <= |cs| && InRange(cs, n) && SortedByStart(cs)
    requires m.src < n && m.dst < n && m.src != m.dst && FitsTrace(rule, k, n)
    ensures IsEarliestDelivery(cs, k, n, m, deadline, rule, Scheme(cs, k, n, m, deadline, rule).delivered)
  {
    hide IsEarliestDelivery, Meet;
    SchemeConserves(cs, k, n, m, deadline, rule);
    if Scheme(cs, k, n, m, deadline, rule).delivered.Never? {
      HoldersAreCarried(cs, k, n, m, deadline, rule);
      NobodyDelivers(cs, k, n, m, deadline, rule);
    } else {
      assert k > 0;
      DeliveryLasts(cs, k, n, m, deadline, rule);
      if Scheme(cs, k - 1, n, m, deadline, rule).delivered.At? {
        DeliversEarliest(cs, k - 1, n, m, deadline, rule);
        LaterContactsDeliverLater(cs, k, n, m, deadline, rule, Scheme(cs, k, n, m, deadline, rule).delivered);
      } else {
        SchemeConserves(cs, k - 1, n, m, deadline, rule);
        HoldersAreCarried(cs, k - 1, n, m, deadline, rule);
        StepHoldsReach(cs, k, n, m, deadline, rule);
        DeliveredNow(cs, k, n, m, deadline, rule);
        FirstDelivery(cs, k, n, m, deadline, rule);
      }
    }
  }

  lemma NobodyDelivers(cs: seq<Contact>, k: nat, n: nat, m: Msg, deadline: real, rule: Rule)
    requires k <= |cs| && InRange(cs, n) && m.src < n && m.dst < n && FitsTrace(rule, k, n)
    requires !Reach(cs, k, n, m, deadline, rule, m.dst)
    ensures IsEarliestDelivery(cs, k, n, m, deadline, rule, Never)
  {
  }

  /** A journey beyond the first `k - 1` contacts ends no earlier than they start. */
  lemma LaterContactsDeliverLater(cs: seq<Contact>, k: nat, n: nat, m: Msg, deadline: real, rule: Rule, x: Arrival)
    requires 0 < k <= |cs| && InRange(cs, n) && SortedByStart(cs) && m.src < n && m.dst < n && m.src != m.dst
    requires FitsTrace(rule, k, n) && x.At? && IsEarliestDelivery(cs, k - 1, n, m, deadline, rule, x)
    ensures IsEarliestDelivery(cs, k, n, m, deadline, rule, x)
  {
    var w :| Carried(cs, k - 1, n, m, deadline, rule, w) && End(w, m.src) == m.dst && Time(w, m.gen) == x.time;
    assert Carried(cs, k, n, m, deadline, rule, w);
    assert x.time == cs[w.contact].start;
    forall j | Carried(cs, k, n, m, deadline, rule, j) && End(j, m.src) == m.dst
      ensures x.time <= Time(j, m.gen)
    {
      if j.contact < k - 1 {
        assert Carried(cs, k - 1, n, m, deadline, rule, j);
      }
    }
  }

  lemma {:induction false} EarlierContactsSuffice(cs: seq<Contact>, k: nat, n: nat, m: Msg, deadline: real,
      rule: Rule, j: Journey)
    requires 0 < k <= |cs| && InRange(cs, n) && m.src < n && m.dst < n && FitsTrace(rule, k, n)
    requires Carried(cs, k, n, m, deadline, rule, j)
    ensures LastContact(j) < k - 1 ==> Carried(cs, k - 1, n, m, deadline, rule, j)
  {
  }

  lemma DeliveredNow(cs: seq<Contact>, k: nat, n: nat, m: Msg, deadline: real, rule: Rule)
    requires 0 < k <= |cs| && InRange(cs, n) && m.src < n && m.dst < n && FitsTrace(rule, k, n)
    requires Scheme(cs, k - 1, n, m, deadline, rule).delivered.Never?
    ensures var after := Scheme(cs, k, n, m, deadline, rule).delivered; after.At? ==> after.time == cs[k - 1].start
  {
  }

  /** The first contact after which the destination can be reached delivers. */
  lemma FirstDelivery(cs: seq<Contact>, k: nat, n: nat, m: Msg, deadline: real, rule: Rule)
    requires 0 < k <= |cs| && InRange(cs, n) && m.src < n && m.dst < n && m.src != m.dst && FitsTrace(rule, k, n)
    requires !Reach(cs, k - 1, n, m, deadline, rule, m.dst) && Reach(cs, k, n, m, deadline, rule, m.dst)
    ensures IsEarliestDelivery(cs, k, n, m, deadline, rule, At(cs[k - 1].start))
  {
    assert forall j :: Carried(cs, k - 1, n, m, deadline, rule, j) ==> End(j, m.src) != m.dst;
    forall j | Carried(cs, k, n, m, deadline, rule, j) && End(j, m.src) == m.dst
      ensures j.Ride? && j.contact == k - 1 && Time(j, m.gen) == cs[k - 1].start
    {
      EarlierContactsSuffice(cs, k, n, m, deadline, rule, j);
    }
  }
}
