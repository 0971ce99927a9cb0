/** Time-respecting journeys, and what one scan over the contacts computes: the
    foremost arrival over the journeys whose contact indices strictly increase. */
module Journeys {
  import opened ContactTraces
  import opened Reals

  /** A journey, last hop outermost. A hop rides contact number `contact` to
      node `to` at the instant `at`; the message may wait before any hop. */
  datatype Journey = Start | Ride(prev: Journey, contact: nat, to: nat, at: real)

  function End(j: Journey, src: nat): nat {
    match j case Start => src case Ride(_, _, to, _) => to
  }

  function Time(j: Journey, t0: real): real {
    match j case Start => t0 case Ride(_, _, _, at) => at
  }

  function LastContact(j: Journey): int {
    match j case Start => -1 case Ride(_, i, _, _) => i
  }

  /** Every hop happens while its contact is open, and no hop goes back in time. */
  predicate Feasible(cs: seq<Contact>, src: nat, t0: real, j: Journey) {
    match j
    case Start => true
    case Ride(prev, i, to, at) =>
      && Feasible(cs, src, t0, prev)
      && i < |cs| && Joins(cs[i], End(prev, src), to)
      && cs[i].start <= at <= cs[i].end
      && Time(prev, t0) <= at
  }

  predicate Increasing(j: Journey) {
    match j
    case Start => true
    case Ride(prev, i, _, _) => LastContact(prev) < i && Increasing(prev)
  }

  /** `j` reaches `v` and uses its contacts in index order, all among the first `k`. */
  predicate Ordered(cs: seq<Contact>, k: nat, src: nat, t0: real, v: nat, j: Journey) {
    Feasible(cs, src, t0, j) && Increasing(j) && LastContact(j) < k && End(j, src) == v
  }

  lemma {:induction false} TimeIsAfterCreation(cs: seq<Contact>, src: nat, t0: real, j: Journey)
    requires Feasible(cs, src, t0, j)
    ensures t0 <= Time(j, t0)
  {
    if j.Ride? {
      TimeIsAfterCreation(cs, src, t0, j.prev);
    }
  }

  /** No arrival precedes the creation time, so skipping contacts that closed
      before it loses nothing. */
  lemma {:induction false} ScanAfterCreation(cs: seq<Contact>, k: nat, n: nat, src: nat, t0: real)
    requires k <= |cs| && InRange(cs, n) && src < n
    ensures forall v :: 0 <= v < n && Scan(cs, k, n, src, t0)[v].At? ==> t0 <= Scan(cs, k, n, src, t0)[v].time
  {
    if k > 0 {
      ScanAfterCreation(cs, k - 1, n, src, t0);
    }
  }

  /** Arrivals only improve as more contacts are processed. */
  lemma {:induction false} ScanImproves(cs: seq<Contact>, i: nat, k: nat, n: nat, src: nat, t0: real)
    requires i <= k <= |cs| && InRange(cs, n) && src < n
    ensures forall v :: 0 <= v < n ==> Scan(cs, k, n, src, t0)[v].NoLaterThan(Scan(cs, i, n, src, t0)[v])
    decreases k - i
  {
    if i < k {
      ScanImproves(cs, i, k - 1, n, src, t0);
    }
  }

  /** Every finite entry is realised by a journey in index order. */
  lemma {:induction false} ScanIsRealised(cs: seq<Contact>, k: nat, n: nat, src: nat, t0: real, v: nat)
    returns (j: Journey)
    requires k <= |cs| && InRange(cs, n) && src < n && v < n
    requires Scan(cs, k, n, src, t0)[v].At?
    ensures Ordered(cs, k, src, t0, v, j)
    ensures Scan(cs, k, n, src, t0)[v] == At(Time(j, t0))
  {
    if k == 0 {
      j := Start;
    } else {
      var c, before, after := cs[k - 1], Scan(cs, k - 1, n, src, t0), Scan(cs, k, n, src, t0);
      if after[v] == before[v] {
        j := ScanIsRealised(cs, k - 1, n, src, t0, v);
      } else {
        var u := if v == c.b && after[v] == Offer(c, before[c.a], before[c.b]) then c.a else c.b;
        var prev := ScanIsRealised(cs, k - 1, n, src, t0, u);
        j := Ride(prev, k - 1, v, after[v].time);
      }
    }
  }

  /** No journey in index order beats the scan. */
  lemma {:induction false} ScanIsLowerBound(cs: seq<Contact>, k: nat, n: nat, src: nat, t0: real, j: Journey)
    requires k <= |cs| && InRange(cs, n) && src < n
    requires Feasible(cs, src, t0, j) && Increasing(j) && LastContact(j) < k
    ensures End(j, src) < n
    ensures Scan(cs, k, n, src, t0)[End(j, src)].NoLaterThan(At(Time(j, t0)))
    decreases j
  {
    match j
    case Start =>
      ScanImproves(cs, 0, k, n, src, t0);
    case Ride(prev, i, to, at) =>
      ScanIsLowerBound(cs, i, n, src, t0, prev);
      TimeIsAfterCreation(cs, src, t0, prev);
      assert Scan(cs, i + 1, n, src, t0)[to].NoLaterThan(At(at));
      ScanImproves(cs, i + 1, k, n, src, t0);
  }

  /** `x` is the least arrival at `v` over journeys in index order within the
      first `k` contacts, and `Never` exactly when there is none. */
  ghost predicate IsLeast(cs: seq<Contact>, k: nat, src: nat, t0: real, v: nat, x: Arrival) {
    && (x.At? <==> exists j :: Ordered(cs, k, src, t0, v, j))
    && (x.At? ==> exists j :: Ordered(cs, k, src, t0, v, j) && Time(j, t0) == x.time)
    && (x.At? ==> forall j :: Ordered(cs, k, src, t0, v, j) ==> x.time <= Time(j, t0))
  }

  /** After every prefix of every contact list, sorted or not, each entry of the
      vector is the least arrival over journeys in index order. */
  lemma {:induction false} PrefixExact(cs: seq<Contact>, k: nat, n: nat, src: nat, t0: real, v: nat)
    requires k <= |cs| && InRange(cs, n) && src < n && v < n
    ensures IsLeast(cs, k, src, t0, v, Scan(cs, k, n, src, t0)[v])
  {
    var x := Scan(cs, k, n, src, t0)[v];
    if x.At? {
      var j := ScanIsRealised(cs, k, n, src, t0, v);
    }
    forall j | Ordered(cs, k, src, t0, v, j)
      ensures x.NoLaterThan(At(Time(j, t0)))
    {
      ScanIsLowerBound(cs, k, n, src, t0, j);
    }
  }

  /** `IsLeast` pins the arrival down. */
  lemma LeastIsUnique(cs: seq<Contact>, k: nat, src: nat, t0: real, v: nat, x: Arrival, y: Arrival)
    requires IsLeast(cs, k, src, t0, v, x) && IsLeast(cs, k, src, t0, v, y)
    ensures x == y
  {
  }

  // ----- Monotonicity -----

  /** Journeys from a later creation time are journeys from an earlier one. */
  lemma {:induction false} EarlierCreation(cs: seq<Contact>, src: nat, t0: real, t1: real, j: Journey)
    requires t0 <= t1 && Feasible(cs, src, t1, j)
    ensures Feasible(cs, src, t0, j)
  {
    if j.Ride? {
      EarlierCreation(cs, src, t0, t1, j.prev);
      if j.prev.Ride? {} else {
        assert Time(j.prev, t0) <= Time(j.prev, t1);
      }
    }
  }

  /** FIFO: creating the message later never makes it arrive earlier. */
  lemma {:induction false} Fifo(cs: seq<Contact>, n: nat, src: nat, t0: real, t1: real, v: nat)
    requires InRange(cs, n) && src < n && v < n && t0 <= t1
    ensures Scan(cs, |cs|, n, src, t0)[v].NoLaterThan(Scan(cs, |cs|, n, src, t1)[v])
  {
    if Scan(cs, |cs|, n, src, t1)[v].At? {
      var j := ScanIsRealised(cs, |cs|, n, src, t1, v);
      EarlierCreation(cs, src, t0, t1, j);
      ScanIsLowerBound(cs, |cs|, n, src, t0, j);
      assert Time(j, t0) <= Time(j, t1);
    }
  }

  /** The same journey once `gap` contacts have been put in front of index `p`. */
  function Shift(j: Journey, p: nat, gap: nat): Journey {
    match j
    case Start => Start
    case Ride(prev, i, to, at) => Ride(Shift(prev, p, gap), if i < p then i else i + gap, to, at)
  }

  lemma {:induction false} ShiftKeeps(before: seq<Contact>, extra: seq<Contact>, after: seq<Contact>, src: nat,
      t0: real, j: Journey)
    requires Feasible(before + after, src, t0, j) && Increasing(j)
    ensures var s := Shift(j, |before|, |extra|);
      && Feasible(before + extra + after, src, t0, s) && Increasing(s)
      && End(s, src) == End(j, src) && Time(s, t0) == Time(j, t0)
      && LastContact(s) == (if LastContact(j) < |before| then LastContact(j) else LastContact(j) + |extra|)
  {
    if j.Ride? {
      ShiftKeeps(before, extra, after, src, t0, j.prev);
    }
  }

  /** Inserting contacts anywhere in the list never makes an arrival later. */
  lemma {:induction false} InsertingNeverDelays(before: seq<Contact>, extra: seq<Contact>, after: seq<Contact>,
      n: nat, src: nat, t0: real, v: nat)
    requires InRange(before, n) && InRange(extra, n) && InRange(after, n) && src < n && v < n
    ensures InRange(before + after, n) && InRange(before + extra + after, n)
    ensures Scan(before + extra + after, |before| + |extra| + |after|, n, src, t0)[v]
              .NoLaterThan(Scan(before + after, |before| + |after|, n, src, t0)[v])
  {
    if Scan(before + after, |before| + |after|, n, src, t0)[v].At? {
      var j := ScanIsRealised(before + after, |before| + |after|, n, src, t0, v);
      ShiftKeeps(before, extra, after, src, t0, j);
      ScanIsLowerBound(before + extra + after, |before| + |extra| + |after|, n, src, t0, Shift(j, |before|, |extra|));
    }
  }
}
