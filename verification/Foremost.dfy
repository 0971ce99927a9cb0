/** When is the one-pass scan the foremost arrival over every journey, whatever
    the order of its contacts? Not always: two contacts that share a node and are
    open together can be ridden against their index order. This module says
    exactly when it is. */
module Foremost {
  import opened ContactTraces
  import opened Finite
  import opened Journeys
  import opened Reals

  /** `x` is the least arrival at `v` over all time-respecting journeys, and
      `Never` exactly when no journey reaches `v`. */
  ghost predicate IsForemost(cs: seq<Contact>, src: nat, t0: real, v: nat, x: Arrival) {
    && (x.At? ==> exists j :: Feasible(cs, src, t0, j) && End(j, src) == v && Time(j, t0) == x.time)
    && (forall j :: Feasible(cs, src, t0, j) && End(j, src) == v ==> x.NoLaterThan(At(Time(j, t0))))
  }

  /** The scan from `src` at `t0` is exact at every node. */
  ghost predicate Exact(cs: seq<Contact>, n: nat, src: nat, t0: real)
    requires InRange(cs, n) && src < n
  {
    forall v :: 0 <= v < n ==> IsForemost(cs, src, t0, v, Scan(cs, |cs|, n, src, t0)[v])
  }

  // ----- One start: exact iff a second pass changes nothing -----

  predicate Stable(cs: seq<Contact>, t0: real, arrival: seq<Arrival>)
    requires InRange(cs, |arrival|)
  {
    forall i :: 0 <= i < |cs| ==> Relax(cs[i], t0, arrival) == arrival
  }

  lemma {:induction false} StableIsLowerBound(cs: seq<Contact>, n: nat, src: nat, t0: real, j: Journey)
    requires InRange(cs, n) && src < n && Feasible(cs, src, t0, j)
    requires Stable(cs, t0, Scan(cs, |cs|, n, src, t0))
    ensures End(j, src) < n
    ensures Scan(cs, |cs|, n, src, t0)[End(j, src)].NoLaterThan(At(Time(j, t0)))
  {
    match j
    case Start =>
      ScanImproves(cs, 0, |cs|, n, src, t0);
    case Ride(prev, i, to, at) =>
      StableIsLowerBound(cs, n, src, t0, prev);
      TimeIsAfterCreation(cs, src, t0, prev);
      var arrival := Scan(cs, |cs|, n, src, t0);
      assert Relax(cs[i], t0, arrival) == arrival;
      assert Relax(cs[i], t0, arrival)[to].NoLaterThan(At(at));
  }

  lemma {:induction false} ExactIsStable(cs: seq<Contact>, n: nat, src: nat, t0: real, i: nat)
    requires InRange(cs, n) && src < n && i < |cs| && Exact(cs, n, src, t0)
    ensures Relax(cs[i], t0, Scan(cs, |cs|, n, src, t0)) == Scan(cs, |cs|, n, src, t0)
  {
    var c, arrival := cs[i], Scan(cs, |cs|, n, src, t0);
    forall u, v | (u == c.a && v == c.b) || (u == c.b && v == c.a)
      ensures Offer(c, arrival[u], arrival[v]) == arrival[v]
    {
      if arrival[u].At? && Max(c.start, arrival[u].time) <= c.end {
        var prev := ScanIsRealised(cs, |cs|, n, src, t0, u);
        var next := Ride(prev, i, v, Max(c.start, arrival[u].time));
        assert Feasible(cs, src, t0, next) && End(next, src) == v;
        assert IsForemost(cs, src, t0, v, arrival[v]);
      }
    }
  }

  /** For every list of contacts, source and creation time. */
  lemma {:induction false} ExactIffStable(cs: seq<Contact>, n: nat, src: nat, t0: real)
    requires InRange(cs, n) && src < n
    ensures Exact(cs, n, src, t0) <==> Stable(cs, t0, Scan(cs, |cs|, n, src, t0))
  {
    var arrival := Scan(cs, |cs|, n, src, t0);
    if Exact(cs, n, src, t0) {
      forall i | 0 <= i < |cs| ensures Relax(cs[i], t0, arrival) == arrival {
        ExactIsStable(cs, n, src, t0, i);
      }
    }
    if Stable(cs, t0, arrival) {
      forall j | Feasible(cs, src, t0, j)
        ensures End(j, src) < n && arrival[End(j, src)].NoLaterThan(At(Time(j, t0)))
      {
        StableIsLowerBound(cs, n, src, t0, j);
      }
      forall v | 0 <= v < n ensures IsForemost(cs, src, t0, v, arrival[v]) {
        if arrival[v].At? {
          var j := ScanIsRealised(cs, |cs|, n, src, t0, v);
        }
      }
    }
  }

  // ----- All starts: exact iff every snapshot can be crossed in index order -----

  /** `j` leaves `u` at `t` and takes no time: a path through the contacts that
      are open at the instant `t`. */
  predicate Instantaneous(cs: seq<Contact>, u: nat, t: real, j: Journey) {
    Feasible(cs, u, t, j) && Time(j, t) == t
  }

  /** Contacts open at `t` and taken in index order lead from `u` to `w`. */
  ghost predicate CrossedInOrder(cs: seq<Contact>, u: nat, t: real, w: nat) {
    exists o :: Instantaneous(cs, u, t, o) && Increasing(o) && End(o, u) == w
  }

  /** Whenever contacts open at one instant connect two nodes, contacts open at
      that instant and taken in index order connect them too. */
  ghost predicate SnapshotsOrdered(cs: seq<Contact>) {
    forall u, t, j {:trigger CrossedInOrder(cs, u, t, End(j, u))} ::
      Instantaneous(cs, u, t, j) ==> CrossedInOrder(cs, u, t, End(j, u))
  }

  /** The same hops, each taken as soon as possible. */
  function Eager(cs: seq<Contact>, src: nat, t0: real, j: Journey): Journey
    requires Feasible(cs, src, t0, j)
  {
    match j
    case Start => Start
    case Ride(prev, i, to, _) =>
      var e := Eager(cs, src, t0, prev);
      Ride(e, i, to, Max(cs[i].start, Time(e, t0)))
  }

  /** An instant at which a message can become available somewhere. */
  ghost predicate Event(cs: seq<Contact>, t0: real, t: real) {
    t == t0 || exists i :: 0 <= i < |cs| && cs[i].start == t
  }

  lemma {:induction false} EagerKeeps(cs: seq<Contact>, src: nat, t0: real, j: Journey)
    requires Feasible(cs, src, t0, j)
    ensures var e := Eager(cs, src, t0, j);
      && Feasible(cs, src, t0, e) && End(e, src) == End(j, src)
      && Time(e, t0) <= Time(j, t0) && Event(cs, t0, Time(e, t0))
  {
    if j.Ride? {
      EagerKeeps(cs, src, t0, j.prev);
    }
  }

  ghost function StartsBefore(cs: seq<Contact>, t: real): set<nat> {
    set i: nat | i < |cs| && cs[i].start < t
  }

  /** How many events lie before `t`. */
  ghost function Rank(cs: seq<Contact>, t0: real, t: real): nat {
    |StartsBefore(cs, t)| + if t0 < t then 1 else 0
  }

  lemma RankGrows(cs: seq<Contact>, t0: real, s: real, t: real)
    requires Event(cs, t0, s) && t0 <= s < t
    ensures Rank(cs, t0, s) < Rank(cs, t0, t)
  {
    SubsetSize(StartsBefore(cs, s), StartsBefore(cs, t));
    if s != t0 {
      var i :| 0 <= i < |cs| && cs[i].start == s;
      assert i in StartsBefore(cs, t) && i !in StartsBefore(cs, s);
    }
  }

  /** Cuts `j` where its last instant begins. */
  lemma {:induction false} SplitAtLastInstant(cs: seq<Contact>, src: nat, t0: real, j: Journey)
    returns (p: Journey, s: Journey)
    requires Feasible(cs, src, t0, j)
    ensures Feasible(cs, src, t0, p) && (p == Start || Time(p, t0) < Time(j, t0))
    ensures Instantaneous(cs, End(p, src), Time(j, t0), s) && End(s, End(p, src)) == End(j, src)
  {
    match j
    case Start =>
      p, s := Start, Start;
    case Ride(prev, i, to, at) =>
      if Time(prev, t0) == at {
        var rest;
        p, rest := SplitAtLastInstant(cs, src, t0, prev);
        s := Ride(rest, i, to, at);
      } else {
        p, s := prev, Ride(Start, i, to, at);
      }
  }

  /** Puts a journey that ends at an event into index order. */
  lemma {:induction false} ReorderToEvent(cs: seq<Contact>, src: nat, t0: real, j: Journey) returns (o: Journey)
    requires SortedByStart(cs) && SnapshotsOrdered(cs)
    requires Feasible(cs, src, t0, j) && Event(cs, t0, Time(j, t0))
    ensures Feasible(cs, src, t0, o) && Increasing(o)
    ensures End(o, src) == End(j, src) && Time(o, t0) <= Time(j, t0)
    decreases Rank(cs, t0, Time(j, t0)), 1, Start
  {
    var t := Time(j, t0);
    TimeIsAfterCreation(cs, src, t0, j);
    var p, s := SplitAtLastInstant(cs, src, t0, j);
    TimeIsAfterCreation(cs, src, t0, p);
    var x := End(p, src);
    assert CrossedInOrder(cs, x, t, End(s, x));
    var r :| Instantaneous(cs, x, t, r) && Increasing(r) && End(r, x) == End(s, x);
    if t == t0 {
      o := r;
    } else {
      EagerKeeps(cs, src, t0, p);
      var e := Eager(cs, src, t0, p);
      TimeIsAfterCreation(cs, src, t0, e);
      RankGrows(cs, t0, Time(e, t0), t);
      var q := ReorderToEvent(cs, src, t0, e);
      o := Splice(cs, src, t0, q, r, t);
    }
  }

  /** Continues `q`, which ends before `t`, along the snapshot path `r` at `t`.
      Either the end of `r` is reached before `t` after all, or the result ends
      with the last contact of `r`, so that it can be continued in order. */
  lemma {:induction false} Splice(cs: seq<Contact>, src: nat, t0: real, q: Journey, r: Journey, t: real)
    returns (o: Journey)
    requires SortedByStart(cs) && SnapshotsOrdered(cs)
    requires Feasible(cs, src, t0, q) && Increasing(q) && Time(q, t0) < t
    requires Instantaneous(cs, End(q, src), t, r) && Increasing(r)
    ensures Feasible(cs, src, t0, o) && Increasing(o) && End(o, src) == End(r, End(q, src))
    ensures Time(o, t0) < t || (Time(o, t0) == t && r.Ride? && LastContact(o) == LastContact(r))
    decreases Rank(cs, t0, t), 0, r
  {
    match r
    case Start =>
      o := q;
    case Ride(rest, i, to, at) =>
      TimeIsAfterCreation(cs, End(q, src), t, rest);
      var prefix := Splice(cs, src, t0, q, rest, t);
      if Time(prefix, t0) == t {
        o := Ride(prefix, i, to, t);
      } else if cs[i].start < t {
        var early := Ride(prefix, i, to, Max(cs[i].start, Time(prefix, t0)));
        EagerKeeps(cs, src, t0, early);
        var e := Eager(cs, src, t0, early);
        TimeIsAfterCreation(cs, src, t0, e);
        RankGrows(cs, t0, Time(e, t0), t);
        o := ReorderToEvent(cs, src, t0, e);
      } else {
        LastOpenedBy(cs, src, t0, prefix);
        o := Ride(prefix, i, to, t);
      }
  }

  /** Any journey of a sorted trace whose snapshots are ordered can be matched by
      one in index order that arrives no later. */
  lemma Reorder(cs: seq<Contact>, src: nat, t0: real, j: Journey) returns (o: Journey)
    requires SortedByStart(cs) && SnapshotsOrdered(cs) && Feasible(cs, src, t0, j)
    ensures Feasible(cs, src, t0, o) && Increasing(o)
    ensures End(o, src) == End(j, src) && Time(o, t0) <= Time(j, t0)
  {
    EagerKeeps(cs, src, t0, j);
    o := ReorderToEvent(cs, src, t0, Eager(cs, src, t0, j));
  }

  lemma {:induction false} LastOpenedBy(cs: seq<Contact>, src: nat, t0: real, j: Journey)
    requires Feasible(cs, src, t0, j)
    ensures j.Ride? ==> LastContact(j) < |cs| && cs[LastContact(j)].start <= Time(j, t0)
  {
  }

  /** The scan of a sorted trace is exact for every source and creation time if
      and only if every snapshot can be crossed in index order. */
  lemma ExactIffSnapshotsOrdered(cs: seq<Contact>, n: nat)
    requires InRange(cs, n) && SortedByStart(cs)
    ensures (forall src: nat, t0: real :: src < n ==> Exact(cs, n, src, t0)) <==> SnapshotsOrdered(cs)
  {
    if SnapshotsOrdered(cs) {
      forall src: nat, t0: real | src < n ensures Exact(cs, n, src, t0) {
        OrderedSnapshotsAreExact(cs, n, src, t0);
      }
    }
    if forall src: nat, t0: real :: src < n ==> Exact(cs, n, src, t0) {
      forall u, t, j | Instantaneous(cs, u, t, j)
        ensures CrossedInOrder(cs, u, t, End(j, u))
      {
        var o := ExactCrossesSnapshot(cs, n, u, t, j);
      }
    }
  }

  lemma OrderedSnapshotsAreExact(cs: seq<Contact>, n: nat, src: nat, t0: real)
    requires InRange(cs, n) && SortedByStart(cs) && SnapshotsOrdered(cs) && src < n
    ensures Exact(cs, n, src, t0)
  {
    var arrival := Scan(cs, |cs|, n, src, t0);
    forall j | Feasible(cs, src, t0, j)
      ensures End(j, src) < n && arrival[End(j, src)].NoLaterThan(At(Time(j, t0)))
    {
      var o := Reorder(cs, src, t0, j);
      LastOpenedBy(cs, src, t0, o);
      ScanIsLowerBound(cs, |cs|, n, src, t0, o);
    }
    forall v | 0 <= v < n ensures IsForemost(cs, src, t0, v, arrival[v]) {
      if arrival[v].At? {
        var j := ScanIsRealised(cs, |cs|, n, src, t0, v);
      }
    }
  }

  lemma ExactCrossesSnapshot(cs: seq<Contact>, n: nat, u: nat, t: real, j: Journey) returns (o: Journey)
    requires InRange(cs, n) && (u < n ==> Exact(cs, n, u, t)) && Instantaneous(cs, u, t, j)
    ensures Instantaneous(cs, u, t, o) && Increasing(o) && End(o, u) == End(j, u)
  {
    OnlyNodesTravel(cs, n, u, t, j);
    if j == Start {
      o := Start;
    } else {
      var w := End(j, u);
      assert IsForemost(cs, u, t, w, Scan(cs, |cs|, n, u, t)[w]);
      o := ScanIsRealised(cs, |cs|, n, u, t, w);
      TimeIsAfterCreation(cs, u, t, o);
    }
  }

  lemma {:induction false} OnlyNodesTravel(cs: seq<Contact>, n: nat, u: nat, t: real, j: Journey)
    requires InRange(cs, n) && Feasible(cs, u, t, j)
    ensures j.Ride? ==> u < n && End(j, u) < n
  {
    if j.Ride? {
      OnlyNodesTravel(cs, n, u, t, j.prev);
    }
  }

  // ----- Contacts that share a node and never overlap -----

  predicate ShareNode(c: Contact, d: Contact) {
    c.a == d.a || c.a == d.b || c.b == d.a || c.b == d.b
  }

  /** Some instant belongs to both closed intervals. */
  predicate Overlap(c: Contact, d: Contact) {
    Max(c.start, d.start) <= c.end && Max(c.start, d.start) <= d.end
  }

  predicate NoSharedOverlap(cs: seq<Contact>) {
    forall i, k :: 0 <= i < k < |cs| && ShareNode(cs[i], cs[k]) ==> !Overlap(cs[i], cs[k])
  }

  /** No contact is ridden twice in a row. */
  predicate NoBackAndForth(j: Journey) {
    match j
    case Start => true
    case Ride(prev, i, _, _) => LastContact(prev) != i && NoBackAndForth(prev)
  }

  /** Riding a contact back and forth can be cut out of any journey. */
  lemma {:induction false} CutBackAndForth(cs: seq<Contact>, src: nat, t0: real, j: Journey) returns (o: Journey)
    requires Feasible(cs, src, t0, j)
    ensures Feasible(cs, src, t0, o) && NoBackAndForth(o)
    ensures End(o, src) == End(j, src) && Time(o, t0) <= Time(j, t0)
  {
    match j
    case Start =>
      o := Start;
    case Ride(prev, i, to, at) =>
      var p := CutBackAndForth(cs, src, t0, prev);
      o := if LastContact(p) == i then p.prev else Ride(p, i, to, at);
  }

  /** Without overlaps two hops in a row at one instant ride the same contact. */
  lemma OneInstantOneContact(cs: seq<Contact>, u: nat, t: real, j: Journey)
    requires NoSharedOverlap(cs) && Instantaneous(cs, u, t, j) && j.Ride? && j.prev.Ride?
    ensures j.contact == j.prev.contact
  {
    TimeIsAfterCreation(cs, u, t, j.prev);
    var c, d := cs[j.contact], cs[j.prev.contact];
    assert ShareNode(c, d) && ShareNode(d, c) && Overlap(c, d) && Overlap(d, c);
  }

  /** Without overlaps a snapshot path is then at most one hop. */
  lemma SnapshotIsOneHop(cs: seq<Contact>, u: nat, t: real, j: Journey) returns (o: Journey)
    requires NoSharedOverlap(cs) && Instantaneous(cs, u, t, j)
    ensures Instantaneous(cs, u, t, o) && Increasing(o) && End(o, u) == End(j, u)
  {
    o := CutBackAndForth(cs, u, t, j);
    TimeIsAfterCreation(cs, u, t, o);
    if o.Ride? && o.prev.Ride? {
      OneInstantOneContact(cs, u, t, o);
    }
  }

  /** The exactness the scan promises, over all journeys, for every source and
      creation time, when contacts sharing a node never overlap. */
  lemma {:induction false} ExactWithoutOverlap(cs: seq<Contact>, n: nat, src: nat, t0: real, v: nat)
    requires InRange(cs, n) && SortedByStart(cs) && NoSharedOverlap(cs) && src < n && v < n
    ensures IsForemost(cs, src, t0, v, Scan(cs, |cs|, n, src, t0)[v])
  {
    forall u, t, j | Instantaneous(cs, u, t, j)
      ensures CrossedInOrder(cs, u, t, End(j, u))
    {
      var o := SnapshotIsOneHop(cs, u, t, j);
    }
    OrderedSnapshotsAreExact(cs, n, src, t0);
  }

  lemma {:induction false} AgainstTheOrder(c: Contact, d: Contact, u: nat, v: nat, w: nat)
    requires c.start <= d.start && Joins(c, w, v) && Joins(d, v, u) && Overlap(c, d)
    ensures Feasible([c, d], u, d.start, Ride(Ride(Start, 1, v, d.start), 0, w, d.start))
  {
    assert Feasible([c, d], u, d.start, Start);
    assert Feasible([c, d], u, d.start, Ride(Start, 1, v, d.start));
  }

  /** For two contacts in a row, `w`-`v` and then `v`-`u`, the hypothesis is also
      necessary: exact for every start if and only if they do not overlap. */
  lemma TwoContactsExactIffDisjoint(c: Contact, d: Contact, n: nat, u: nat, v: nat, w: nat)
    requires InRange([c, d], n) && c.start <= d.start
    requires Joins(c, w, v) && Joins(d, v, u) && u != v && v != w && u != w
    ensures (forall src: nat, t0: real :: src < n ==> Exact([c, d], n, src, t0)) <==> !Overlap(c, d)
  {
    var cs := [c, d];
    if !Overlap(c, d) {
      forall src: nat, t0: real | src < n ensures Exact(cs, n, src, t0) {
        forall x | 0 <= x < n ensures IsForemost(cs, src, t0, x, Scan(cs, |cs|, n, src, t0)[x]) {
          ExactWithoutOverlap(cs, n, src, t0, x);
        }
      }
    } else {
      var t := d.start;
      var j := Ride(Ride(Start, 1, v, t), 0, w, t);
      AgainstTheOrder(c, d, u, v, w);
      var s0, s1, s2 := Scan(cs, 0, n, u, t), Scan(cs, 1, n, u, t), Scan(cs, 2, n, u, t);
      assert s1[w] == Never && s2[w] == Never;
      assert !IsForemost(cs, u, t, w, s2[w]);
      assert !Exact(cs, n, u, t);
    }
  }

  /** A concrete trace on which the scan misses a node it could reach. */
  lemma OverlapCounterexample()
    ensures var cs := [Contact(0.0, 100.0, 1, 2), Contact(10.0, 20.0, 0, 1)];
      && SortedByStart(cs) && InRange(cs, 3)
      && Scan(cs, 2, 3, 0, 0.0)[2] == Never
      && Feasible(cs, 0, 0.0, Ride(Ride(Start, 1, 1, 10.0), 0, 2, 10.0))
  {
    var cs := [Contact(0.0, 100.0, 1, 2), Contact(10.0, 20.0, 0, 1)];
    var s1 := Scan(cs, 1, 3, 0, 0.0);
    assert s1[1] == Never && s1[2] == Never;
  }
}
