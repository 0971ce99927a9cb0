/** Contacts whose interval ends before it starts. The copying runs read only the
    start of a contact and use it; the oracle's scan cannot. When does the oracle
    still bound epidemic delivery? */
module Backwards {
  import opened ContactTraces
  import opened Delivery
  import opened Foremost
  import opened Journeys
  import opened Reals

  /** The oracle delivers every message no later than epidemic, for every deadline. */
  ghost predicate OracleBounds(trace: ContactTrace)
    requires InRange(trace.contacts, trace.n)
  {
    forall m: Msg, deadline: real :: m.src < trace.n && m.dst < trace.n ==>
      OracleDelivery(trace, m, deadline).NoLaterThan(Epidemic(trace.contacts, |trace.contacts|, m, deadline).delivered)
  }

  /** Where a contact runs backward, contacts open at its start and taken in index
      order connect its ends, both ways. */
  ghost predicate BackwardCrossed(cs: seq<Contact>) {
    forall i, u, v :: 0 <= i < |cs| && cs[i].end < cs[i].start && Joins(cs[i], u, v) ==>
      CrossedInOrder(cs, u, cs[i].start, v)
  }

  // ----- Necessary for every sorted trace -----

  lemma {:induction false} DeliveryIsKept(cs: seq<Contact>, i: nat, k: nat, m: Msg, deadline: real)
    requires i <= k <= |cs| && Epidemic(cs, i, m, deadline).delivered.At?
    ensures Epidemic(cs, k, m, deadline).delivered == Epidemic(cs, i, m, deadline).delivered
    decreases k
  {
    if i < k {
      DeliveryIsKept(cs, i, k - 1, m, deadline);
    }
  }

  /** A message from one end of a contact to the other, created at its start, is
      delivered at that instant by the epidemic run. */
  lemma {:induction false} EpidemicUsesContact(cs: seq<Contact>, n: nat, i: nat, u: nat, v: nat)
    requires InRange(cs, n) && SortedByStart(cs) && i < |cs| && Joins(cs[i], u, v) && u != v
    ensures var d := Epidemic(cs, |cs|, Msg(u, v, cs[i].start), 0.0).delivered; d.At? && d.time <= cs[i].start
  {
    hide Meet;
    var m, t := Msg(u, v, cs[i].start), cs[i].start;
    var s := Epidemic(cs, i, m, 0.0);
    var zero := seq(n, _ => seq(n, _ => 0.0));
    SchemesConserve(cs, i, n, m, 0.0, seq(i, _ => zero));
    MeetDelivers(s, cs[i], m);
    DeliveredInThePast(cs, i + 1, m, 0.0, t);
    DeliveryIsKept(cs, i + 1, |cs|, m, 0.0);
  }

  lemma MeetDelivers(s: Copies, c: Contact, m: Msg)
    requires m.src in s.holders && m.src != m.dst && Joins(c, m.src, m.dst)
    requires s.delivered.At? <==> m.dst in s.holders
    ensures Meet(s, c, m, true).delivered.At?
  {
  }

  lemma BoundNeedsCrossing(trace: ContactTrace, i: nat, u: nat, v: nat)
    requires trace.Valid() && OracleBounds(trace)
    requires i < |trace.contacts| && Joins(trace.contacts[i], u, v)
    ensures CrossedInOrder(trace.contacts, u, trace.contacts[i].start, v)
  {
    var cs, n := trace.contacts, trace.n;
    var t := cs[i].start;
    var m := Msg(u, v, t);
    EpidemicUsesContact(cs, n, i, u, v);
    assert OracleDelivery(trace, m, 0.0).NoLaterThan(Epidemic(cs, |cs|, m, 0.0).delivered);
    var j := ScanIsRealised(cs, |cs|, n, u, t, v);
    TimeIsAfterCreation(cs, u, t, j);
  }

  // ----- Sufficient where the scan is exact -----

  /** `r` continued from the end of `j`. */
  function Then(j: Journey, r: Journey): Journey {
    match r
    case Start => j
    case Ride(prev, i, to, at) => Ride(Then(j, prev), i, to, at)
  }

  lemma {:induction false} ThenIsFeasible(cs: seq<Contact>, src: nat, t0: real, j: Journey, t: real, r: Journey)
    requires Feasible(cs, src, t0, j) && Time(j, t0) <= t && Feasible(cs, End(j, src), t, r)
    ensures Feasible(cs, src, t0, Then(j, r)) && End(Then(j, r), src) == End(r, End(j, src))
    ensures Time(Then(j, r), t0) <= Time(r, t)
  {
    if r.Ride? {
      ThenIsFeasible(cs, src, t0, j, t, r.prev);
    }
  }

  /** Whoever holds an epidemic copy could have been reached by a journey: a
      backward contact is replaced by the crossing at its start. */
  lemma {:induction false} HolderIsReachable(cs: seq<Contact>, k: nat, m: Msg, deadline: real, v: nat, now: real)
    returns (j: Journey)
    requires k <= |cs| && SortedByStart(cs) && BackwardCrossed(cs)
    requires v in Epidemic(cs, k, m, deadline).holders
    requires m.gen <= now && forall i :: 0 <= i < k ==> cs[i].start <= now
    ensures Feasible(cs, m.src, m.gen, j) && End(j, m.src) == v && Time(j, m.gen) <= now
  {
    if k == 0 {
      j := Start;
    } else {
      var c, s := cs[k - 1], Epidemic(cs, k - 1, m, deadline);
      if v in s.holders {
        j := HolderIsReachable(cs, k - 1, m, deadline, v, now);
      } else {
        var u := Holder(s, c);
        var prev := HolderIsReachable(cs, k - 1, m, deadline, u, c.start);
        if c.start <= c.end {
          j := Ride(prev, k - 1, v, c.start);
        } else {
          assert CrossedInOrder(cs, u, c.start, v);
          var r :| Instantaneous(cs, u, c.start, r) && Increasing(r) && End(r, u) == v;
          ThenIsFeasible(cs, m.src, m.gen, prev, c.start, r);
          j := Then(prev, r);
        }
      }
    }
  }

  lemma {:induction false} DeliveryIsReachable(cs: seq<Contact>, k: nat, m: Msg, deadline: real) returns (j: Journey)
    requires k <= |cs| && SortedByStart(cs) && BackwardCrossed(cs)
    requires Epidemic(cs, k, m, deadline).delivered.At?
    ensures var t := Epidemic(cs, k, m, deadline).delivered.time;
      t - m.gen <= deadline && Feasible(cs, m.src, m.gen, j) && End(j, m.src) == m.dst && Time(j, m.gen) <= t
  {
    if Epidemic(cs, k - 1, m, deadline).delivered.At? {
      j := DeliveryIsReachable(cs, k - 1, m, deadline);
    } else {
      j := HolderIsReachable(cs, k, m, deadline, m.dst, cs[k - 1].start);
    }
  }

  /** For every trace on which the scan is exact from every start: the oracle bounds
      epidemic delivery for every message and deadline if and only if every
      backward contact is crossed. Without exactness the crossings remain
      necessary. */
  lemma OracleBoundsIffBackwardCrossed(trace: ContactTrace)
    requires trace.Valid()
    ensures OracleBounds(trace) ==> BackwardCrossed(trace.contacts)
    ensures SnapshotsOrdered(trace.contacts) && BackwardCrossed(trace.contacts) ==> OracleBounds(trace)
  {
    var cs, n := trace.contacts, trace.n;
    if OracleBounds(trace) {
      forall i, u, v | 0 <= i < |cs| && cs[i].end < cs[i].start && Joins(cs[i], u, v)
        ensures CrossedInOrder(cs, u, cs[i].start, v)
      {
        BoundNeedsCrossing(trace, i, u, v);
      }
    }
    if SnapshotsOrdered(cs) && BackwardCrossed(cs) {
      forall m: Msg, deadline: real | m.src < n && m.dst < n
        ensures OracleDelivery(trace, m, deadline).NoLaterThan(Epidemic(cs, |cs|, m, deadline).delivered)
      {
        if Epidemic(cs, |cs|, m, deadline).delivered.At? {
          var j := DeliveryIsReachable(cs, |cs|, m, deadline);
          OrderedSnapshotsAreExact(cs, n, m.src, m.gen);
          assert IsForemost(cs, m.src, m.gen, m.dst, Scan(cs, |cs|, n, m.src, m.gen)[m.dst]);
        }
      }
    }
  }

  /** A trace that is not scanned exactly and whose backward contact is crossed,
      with a message epidemic delivers and the oracle does not. */
  lemma CrossingIsNotEnough()
    ensures var cs := [Contact(0.0, 100.0, 1, 2), Contact(10.0, 10.0, 0, 1), Contact(20.0, 5.0, 1, 2)];
      var trace := ContactTrace(3, 100.0, cs);
      && trace.Valid() && BackwardCrossed(cs)
      && Epidemic(cs, 3, Msg(0, 2, 0.0), 100.0).delivered == At(20.0)
      && OracleDelivery(trace, Msg(0, 2, 0.0), 100.0) == Never
  {
    var cs := [Contact(0.0, 100.0, 1, 2), Contact(10.0, 10.0, 0, 1), Contact(20.0, 5.0, 1, 2)];
    var m := Msg(0, 2, 0.0);
    forall i, u, v | 0 <= i < |cs| && cs[i].end < cs[i].start && Joins(cs[i], u, v)
      ensures CrossedInOrder(cs, u, cs[i].start, v)
    {
      var o := Ride(Start, 0, v, 20.0);
      assert Instantaneous(cs, u, 20.0, o) && Increasing(o) && End(o, u) == v;
    }
    assert Epidemic(cs, 1, m, 100.0) == Injected(m);
    assert Epidemic(cs, 2, m, 100.0) == Copies({0, 1}, Never, 1);
    assert Scan(cs, 1, 3, 0, 0.0) == [At(0.0), Never, Never];
    assert Scan(cs, 2, 3, 0, 0.0) == [At(0.0), At(10.0), Never];
  }
}
