/** PRoPHET's delivery predictabilities: ageing, the encounter update and
    transitivity, applied once per contact. */
module Predictability {
  import opened ContactTraces
  import opened Delivery
  import opened Journeys
  import opened Reals

  const ENCOUNTER := 0.75
  const BETA := 0.25
  const GAMMA := 0.98
  const AGE_UNIT := 3600.0

  datatype Tables = Tables(p: Matrix, lastAge: seq<real>) {
    predicate Valid(n: nat) {
      Square(p, n) && |lastAge| == n
    }
  }

  function Scale(row: seq<real>, factor: real): (r: seq<real>)
    ensures |r| == |row|
  {
    seq(|row|, i requires 0 <= i < |row| => row[i] * factor)
  }

  function Put(p: Matrix, u: nat, v: nat, x: real): (r: Matrix)
    requires u < |p| && v < |p[u]|
    ensures |r| == |p| && forall i :: 0 <= i < |p| ==> |r[i]| == |p[i]|
  {
    p[u := p[u][v := x]]
  }

  /** Whole ageing units since `node` was last aged. */
  function AgeSteps(t: Tables, node: nat, now: real): int
    requires node < |t.lastAge|
  {
    ((now - t.lastAge[node]) / AGE_UNIT).Floor
  }

  function Aged(t: Tables, n: nat, node: nat, now: real): (r: Tables)
    requires t.Valid(n) && node < n
    ensures r.Valid(n)
  {
    var steps := AgeSteps(t, node, now);
    if steps > 0
    then Tables(t.p[node := Scale(t.p[node], Pow(GAMMA, steps))], t.lastAge[node := now])
    else t
  }

  /** `u` has just met `v`. */
  function Met(p: Matrix, n: nat, u: nat, v: nat): (r: Matrix)
    requires Square(p, n) && u < n && v < n
    ensures Square(r, n)
  {
    Put(p, u, v, p[u][v] + (1.0 - p[u][v]) * ENCOUNTER)
  }

  /** An entry `x` moved towards 1 through a peer met with `met` that knows `y`. */
  function Nudged(x: real, met: real, y: real): real {
    x + Times(Times(Times(1.0 - x, met), y), BETA)
  }

  /** What `u` learns about `d` from having met `v`. */
  function Learned(p: Matrix, n: nat, u: nat, v: nat, d: nat): (r: Matrix)
    requires Square(p, n) && u < n && v < n && d < n
    ensures Square(r, n)
  {
    Put(p, u, d, Nudged(p[u][d], p[u][v], p[v][d]))
  }

  /** Transitivity for the destinations below `k`. */
  function Transitive(p: Matrix, n: nat, a: nat, b: nat, k: nat): (r: Matrix)
    requires Square(p, n) && a < n && b < n && k <= n
    ensures Square(r, n)
  {
    if k == 0 then p else
      var q := Transitive(p, n, a, b, k - 1);
      if k - 1 == a || k - 1 == b then q
      else Learned(Learned(q, n, a, b, k - 1), n, b, a, k - 1)
  }

  function Updated(t: Tables, n: nat, c: Contact): (r: Tables)
    requires t.Valid(n) && c.a < n && c.b < n
    ensures r.Valid(n)
  {
    var aged := Aged(Aged(t, n, c.a, c.start), n, c.b, c.start);
    Tables(Transitive(Met(Met(aged.p, n, c.a, c.b), n, c.b, c.a), n, c.a, c.b, n), aged.lastAge)
  }

  function Fresh(n: nat): (r: Tables)
    ensures r.Valid(n)
  {
    Tables(seq(n, _ => seq(n, _ => 0.0)), seq(n, _ => 0.0))
  }

  /** The tables after the first `k` contacts. */
  function Predicted(cs: seq<Contact>, k: nat, n: nat): (r: Tables)
    requires k <= |cs| && InRange(cs, n)
    ensures r.Valid(n)
  {
    if k == 0 then Fresh(n) else Updated(Predicted(cs, k - 1, n), n, cs[k - 1])
  }

  /** The matrices in force at each of the first `k` contacts. */
  function History(cs: seq<Contact>, k: nat, n: nat): (r: seq<Matrix>)
    requires k <= |cs| && InRange(cs, n)
    ensures |r| == k && ValidHistory(r, n)
    ensures forall i :: 0 <= i < k ==> r[i] == Predicted(cs, i + 1, n).p
  {
    if k == 0 then [] else History(cs, k - 1, n) + [Predicted(cs, k, n).p]
  }

  // ----- Predictabilities are probabilities -----

  predicate InUnit(p: Matrix) {
    forall i, k :: 0 <= i < |p| && 0 <= k < |p[i]| ==> 0.0 <= p[i][k] <= 1.0
  }

  lemma ProductInUnit(x: real, y: real)
    requires 0.0 <= x <= 1.0 && 0.0 <= y <= 1.0
    ensures 0.0 <= x * y <= 1.0
    ensures x * y <= x && x * y <= y
  {
    assert x * y <= x * 1.0;
    assert x * y <= 1.0 * y;
  }

  lemma {:induction false} PowInUnit(b: real, k: nat)
    requires 0.0 <= b <= 1.0
    ensures 0.0 <= Pow(b, k) <= 1.0
  {
    if k > 0 {
      PowInUnit(b, k - 1);
      ProductInUnit(b, Pow(b, k - 1));
    }
  }

  /** A convex step from `x` towards 1 stays a probability. */
  lemma StepTowardsOne(x: real, w: real)
    requires 0.0 <= x <= 1.0 && 0.0 <= w <= 1.0
    ensures 0.0 <= x + (1.0 - x) * w <= 1.0
  {
    ProductInUnit(x, w);
    assert (1.0 - x) * w == w - x * w;
    StepWithin(x, w, x * w);
  }

  lemma StepWithin(x: real, w: real, xw: real)
    requires xw == x * w && 0.0 <= x <= 1.0 && 0.0 <= w <= 1.0
    ensures x + w - xw <= 1.0
  {
    calc {
      1.0 - x - w + xw;
      (1.0 - x) * (1.0 - w);
    }
    Nonnegative(1.0 - x, 1.0 - w);
  }

  lemma Nonnegative(x: real, y: real)
    requires 0.0 <= x && 0.0 <= y
    ensures 0.0 <= x * y
  {
  }

  lemma AgedInUnit(t: Tables, n: nat, node: nat, now: real)
    requires t.Valid(n) && node < n && InUnit(t.p)
    ensures InUnit(Aged(t, n, node, now).p)
  {
    var steps := AgeSteps(t, node, now);
    if steps > 0 {
      PowInUnit(GAMMA, steps);
      var f := Pow(GAMMA, steps);
      forall k | 0 <= k < n ensures 0.0 <= t.p[node][k] * f <= 1.0 {
        ProductInUnit(t.p[node][k], f);
      }
    }
  }

  lemma NudgedInUnit(x: real, met: real, y: real)
    requires 0.0 <= x <= 1.0 && 0.0 <= met <= 1.0 && 0.0 <= y <= 1.0
    ensures 0.0 <= Nudged(x, met, y) <= 1.0
  {
    hide Times;
    var once := Times(1.0 - x, met);
    var twice := Times(once, y);
    TimesCommute(1.0 - x, met);
    TimesInUnit(met, 1.0 - x);
    TimesCommute(once, y);
    TimesInUnit(y, once);
    TimesCommute(twice, BETA);
    TimesInUnit(BETA, twice);
  }

  lemma LearnedInUnit(p: Matrix, n: nat, u: nat, v: nat, d: nat)
    requires Square(p, n) && u < n && v < n && d < n && InUnit(p)
    ensures InUnit(Learned(p, n, u, v, d))
  {
    hide Nudged;
    NudgedInUnit(p[u][d], p[u][v], p[v][d]);
  }

  lemma {:induction false} TransitiveInUnit(p: Matrix, n: nat, a: nat, b: nat, k: nat)
    requires Square(p, n) && a < n && b < n && k <= n && InUnit(p)
    ensures InUnit(Transitive(p, n, a, b, k))
  {
    if k > 0 {
      TransitiveInUnit(p, n, a, b, k - 1);
      var q := Transitive(p, n, a, b, k - 1);
      LearnedInUnit(q, n, a, b, k - 1);
      LearnedInUnit(Learned(q, n, a, b, k - 1), n, b, a, k - 1);
    }
  }

  lemma MeetingRaises(x: real)
    requires 0.0 <= x <= 1.0
    ensures ENCOUNTER <= x + (1.0 - x) * ENCOUNTER && x <= x + (1.0 - x) * ENCOUNTER
  {
  }

  lemma {:induction false} TransitiveKeepsMeeting(p: Matrix, n: nat, a: nat, b: nat, k: nat)
    requires Square(p, n) && a < n && b < n && k <= n
    ensures Transitive(p, n, a, b, k)[a][b] == p[a][b] && Transitive(p, n, a, b, k)[b][a] == p[b][a]
    ensures forall i :: 0 <= i < n && i != a && i != b ==> Transitive(p, n, a, b, k)[i] == p[i]
  {
    if k > 0 {
      TransitiveKeepsMeeting(p, n, a, b, k - 1);
    }
  }

  /** After a meeting each side is at least `ENCOUNTER` likely for the other, and
      nobody else's row has changed. */
  lemma MeetingIsRemembered(t: Tables, n: nat, c: Contact)
    requires t.Valid(n) && c.a < n && c.b < n && c.a != c.b && InUnit(t.p)
    ensures var p := Updated(t, n, c).p;
      && p[c.a][c.b] >= ENCOUNTER && p[c.b][c.a] >= ENCOUNTER
      && forall i :: 0 <= i < n && i != c.a && i != c.b ==> p[i] == t.p[i]
  {
    hide Transitive, InUnit;
    AgedInUnit(t, n, c.a, c.start);
    var once := Aged(t, n, c.a, c.start);
    AgedInUnit(once, n, c.b, c.start);
    var p := Aged(once, n, c.b, c.start).p;
    EntryInUnit(p, n, c.a, c.b);
    EntryInUnit(p, n, c.b, c.a);
    MeetingRaises(p[c.a][c.b]);
    MeetingRaises(p[c.b][c.a]);
    TransitiveKeepsMeeting(Met(Met(p, n, c.a, c.b), n, c.b, c.a), n, c.a, c.b, n);
  }

  lemma EntryInUnit(p: Matrix, n: nat, u: nat, v: nat)
    requires Square(p, n) && u < n && v < n && InUnit(p)
    ensures 0.0 <= p[u][v] <= 1.0
  {
  }

  lemma MetInUnit(p: Matrix, n: nat, u: nat, v: nat)
    requires Square(p, n) && u < n && v < n && InUnit(p)
    ensures InUnit(Met(p, n, u, v))
  {
    StepTowardsOne(p[u][v], ENCOUNTER);
  }

  lemma UpdatedInUnit(t: Tables, n: nat, c: Contact)
    requires t.Valid(n) && c.a < n && c.b < n && InUnit(t.p)
    ensures InUnit(Updated(t, n, c).p)
  {
    hide Aged, Met, Transitive, InUnit;
    AgedInUnit(t, n, c.a, c.start);
    var once := Aged(t, n, c.a, c.start);
    AgedInUnit(once, n, c.b, c.start);
    var p := Aged(once, n, c.b, c.start).p;
    MetInUnit(p, n, c.a, c.b);
    MetInUnit(Met(p, n, c.a, c.b), n, c.b, c.a);
    TransitiveInUnit(Met(Met(p, n, c.a, c.b), n, c.b, c.a), n, c.a, c.b, n);
  }

  /** Over every run, every predictability is a probability. */
  lemma {:induction false} PredictabilitiesInUnit(cs: seq<Contact>, k: nat, n: nat)
    requires k <= |cs| && InRange(cs, n)
    ensures InUnit(Predicted(cs, k, n).p)
  {
    hide Updated;
    if k > 0 {
      PredictabilitiesInUnit(cs, k - 1, n);
      UpdatedInUnit(Predicted(cs, k - 1, n), n, cs[k - 1]);
    }
  }

  // ----- What one contact does to each entry -----

  /** Whole ageing units between two instants. */
  function Hours(since: real, now: real): nat {
    var h := ((now - since) / 3600.0).Floor;
    if h < 0 then 0 else h
  }

  /** An entry of `u`'s row as ageing up to the contact leaves it. */
  function AgedEntry(t: Tables, u: nat, d: nat, now: real): real
    requires u < |t.p| && u < |t.lastAge| && d < |t.p[u]|
  {
    Times(t.p[u][d], Pow(0.98, Hours(t.lastAge[u], now)))
  }

  lemma AgedEntries(t: Tables, n: nat, node: nat, now: real)
    requires t.Valid(n) && node < n
    ensures var r := Aged(t, n, node, now);
      && (forall d :: 0 <= d < n ==> r.p[node][d] == AgedEntry(t, node, d, now))
      && (forall u :: 0 <= u < n && u != node ==> r.p[u] == t.p[u] && r.lastAge[u] == t.lastAge[u])
      && r.lastAge[node] == if Hours(t.lastAge[node], now) > 0 then now else t.lastAge[node]
  {
    if Hours(t.lastAge[node], now) == 0 {
      forall d | 0 <= d < n ensures t.p[node][d] == AgedEntry(t, node, d, now) {
        TimesOne(t.p[node][d]);
      }
    }
  }

  lemma NudgedMeans(x: real, met: real, y: real)
    ensures Nudged(x, met, y) == x + Times(Times(Times(1.0 - x, met), y), 0.25)
  {
  }

  lemma LearnedEntry(p: Matrix, n: nat, u: nat, v: nat, d: nat)
    requires Square(p, n) && u < n && v < n && d < n
    ensures Learned(p, n, u, v, d)[u] == p[u][d := Nudged(p[u][d], p[u][v], p[v][d])]
    ensures forall w :: 0 <= w < n && w != u ==> Learned(p, n, u, v, d)[w] == p[w]
  {
  }

  /** The two rows once transitivity has gone through the destinations below `k`. */
  lemma {:induction false} TransitiveEntries(p: Matrix, n: nat, a: nat, b: nat, k: nat)
    requires Square(p, n) && a < n && b < n && a != b && k <= n
    ensures var r := Transitive(p, n, a, b, k);
      && r[a][b] == p[a][b] && r[b][a] == p[b][a] && r[a][a] == p[a][a] && r[b][b] == p[b][b]
      && (forall d :: 0 <= d < k && d != a && d != b ==>
            && r[a][d] == Nudged(p[a][d], p[a][b], p[b][d])
            && r[b][d] == Nudged(p[b][d], p[b][a], r[a][d]))
      && (forall d :: k <= d < n ==> r[a][d] == p[a][d] && r[b][d] == p[b][d])
      && (forall u :: 0 <= u < n && u != a && u != b ==> r[u] == p[u])
  {
    hide Learned, Nudged;
    if k > 0 {
      TransitiveEntries(p, n, a, b, k - 1);
      var q, d := Transitive(p, n, a, b, k - 1), k - 1;
      if d != a && d != b {
        var once := Learned(q, n, a, b, d);
        LearnedEntry(q, n, a, b, d);
        LearnedEntry(once, n, b, a, d);
      }
    }
  }

  /** One contact, entry by entry: both rows age by 0.98 for every whole hour; each
      side moves three quarters of the way to certainty about the other; then each
      learns about every third node through the other, the higher end from what the
      lower has just learned; no other row changes. */
  ghost predicate MeetsAsDefined(t: Tables, r: Tables, n: nat, c: Contact)
    requires t.Valid(n) && r.Valid(n) && c.a < n && c.b < n
  {
    var a, b, now, p := c.a, c.b, c.start, r.p;
    && p[a][b] == AgedEntry(t, a, b, now) + (1.0 - AgedEntry(t, a, b, now)) * 0.75
    && p[b][a] == AgedEntry(t, b, a, now) + (1.0 - AgedEntry(t, b, a, now)) * 0.75
    && p[a][a] == AgedEntry(t, a, a, now) && p[b][b] == AgedEntry(t, b, b, now)
    && (forall d :: 0 <= d < n && d != a && d != b ==>
          var x, y := AgedEntry(t, a, d, now), AgedEntry(t, b, d, now);
          && p[a][d] == x + Times(Times(Times(1.0 - x, p[a][b]), y), 0.25)
          && p[b][d] == y + Times(Times(Times(1.0 - y, p[b][a]), p[a][d]), 0.25))
    && (forall u :: 0 <= u < n && u != a && u != b ==> p[u] == t.p[u] && r.lastAge[u] == t.lastAge[u])
    && r.lastAge[a] == (if Hours(t.lastAge[a], now) > 0 then now else t.lastAge[a])
    && r.lastAge[b] == (if Hours(t.lastAge[b], now) > 0 then now else t.lastAge[b])
  }

  /** Ageing both ends, then the two encounter updates. */
  lemma EncounterEntries(t: Tables, n: nat, c: Contact)
    requires t.Valid(n) && c.a < n && c.b < n && c.a != c.b
    ensures var a, b, now := c.a, c.b, c.start;
      var aged := Aged(Aged(t, n, a, now), n, b, now);
      var met := Met(Met(aged.p, n, a, b), n, b, a);
      && (forall d :: 0 <= d < n && d != b ==> met[a][d] == AgedEntry(t, a, d, now))
      && (forall d :: 0 <= d < n && d != a ==> met[b][d] == AgedEntry(t, b, d, now))
      && met[a][b] == AgedEntry(t, a, b, now) + (1.0 - AgedEntry(t, a, b, now)) * ENCOUNTER
      && met[b][a] == AgedEntry(t, b, a, now) + (1.0 - AgedEntry(t, b, a, now)) * ENCOUNTER
      && (forall u :: 0 <= u < n && u != a && u != b ==> met[u] == t.p[u] && aged.lastAge[u] == t.lastAge[u])
      && aged.lastAge[a] == (if Hours(t.lastAge[a], now) > 0 then now else t.lastAge[a])
      && aged.lastAge[b] == (if Hours(t.lastAge[b], now) > 0 then now else t.lastAge[b])
  {
    hide Aged, Hours, Pow, Times;
    var a, b, now := c.a, c.b, c.start;
    AgedEntries(t, n, a, now);
    var once := Aged(t, n, a, now);
    AgedEntries(once, n, b, now);
    forall d | 0 <= d < n ensures AgedEntry(once, b, d, now) == AgedEntry(t, b, d, now) {
    }
    var aged := Aged(once, n, b, now).p;
    var met := Met(Met(aged, n, a, b), n, b, a);
    assert met[a] == aged[a][b := aged[a][b] + (1.0 - aged[a][b]) * ENCOUNTER];
    assert met[b] == aged[b][a := aged[b][a] + (1.0 - aged[b][a]) * ENCOUNTER];
  }

  lemma ContactEntries(t: Tables, n: nat, c: Contact)
    requires t.Valid(n) && c.a < n && c.b < n && c.a != c.b
    ensures MeetsAsDefined(t, Updated(t, n, c), n, c)
  {
    EncounterEntries(t, n, c);
    var a, b, now := c.a, c.b, c.start;
    var aged := Aged(Aged(t, n, a, now), n, b, now);
    var met := Met(Met(aged.p, n, a, b), n, b, a);
    var r := Updated(t, n, c);
    assert r == Tables(Transitive(met, n, a, b, n), aged.lastAge);
    hide Aged, Met, Transitive, Updated, AgedEntry, Hours, Nudged, Times;
    TransitiveEntries(met, n, a, b, n);
    forall d | 0 <= d < n && d != a && d != b
      ensures var x, y := AgedEntry(t, a, d, now), AgedEntry(t, b, d, now);
        && r.p[a][d] == x + Times(Times(Times(1.0 - x, r.p[a][b]), y), 0.25)
        && r.p[b][d] == y + Times(Times(Times(1.0 - y, r.p[b][a]), r.p[a][d]), 0.25)
    {
      NudgedMeans(AgedEntry(t, a, d, now), r.p[a][b], AgedEntry(t, b, d, now));
      NudgedMeans(AgedEntry(t, b, d, now), r.p[b][a], r.p[a][d]);
    }
  }

  /** A run starts with nobody rated and every row aged up to time 0. */
  lemma {:induction false} StartsUnrated(cs: seq<Contact>, n: nat)
    requires InRange(cs, n)
    ensures var t := Predicted(cs, 0, n);
      forall u, d :: 0 <= u < n && 0 <= d < n ==> t.p[u][d] == 0.0 && t.lastAge[u] == 0.0
  {
  }

  // ----- Who has heard of whom -----

  /** Contacts in index order, all among the first `k`, lead from `d` along `j`;
      times do not matter. */
  predicate Leads(cs: seq<Contact>, k: nat, d: nat, j: Journey) {
    match j
    case Start => true
    case Ride(prev, i, to, _) => i < k && i < |cs| && Leads(cs, i, d, prev) && Joins(cs[i], End(prev, d), to)
  }

  ghost predicate HeardOf(cs: seq<Contact>, k: nat, u: nat, d: nat) {
    exists j :: Leads(cs, k, d, j) && End(j, d) == u
  }

  lemma {:induction false} LeadsLater(cs: seq<Contact>, i: nat, k: nat, d: nat, j: Journey)
    requires Leads(cs, i, d, j) && i <= k
    ensures Leads(cs, k, d, j)
  {
  }

  /** One more contact spreads word from either end to the other. */
  lemma HeardStep(cs: seq<Contact>, k: nat, u: nat, d: nat)
    requires k < |cs|
    ensures HeardOf(cs, k + 1, u, d) <==>
      HeardOf(cs, k, u, d) || (u == cs[k].a && HeardOf(cs, k, cs[k].b, d))
        || (u == cs[k].b && HeardOf(cs, k, cs[k].a, d))
  {
    if HeardOf(cs, k + 1, u, d) {
      var j :| Leads(cs, k + 1, d, j) && End(j, d) == u;
      if j.Ride? && j.contact == k {
        assert HeardOf(cs, k, End(j.prev, d), d);
      } else {
        assert Leads(cs, k, d, j);
      }
    }
    if HeardOf(cs, k, u, d) {
      var j :| Leads(cs, k, d, j) && End(j, d) == u;
      LeadsLater(cs, k, k + 1, d, j);
    }
    forall v | Joins(cs[k], v, u) && HeardOf(cs, k, v, d) ensures HeardOf(cs, k + 1, u, d) {
      var j :| Leads(cs, k, d, j) && End(j, d) == v;
      assert Leads(cs, k + 1, d, Ride(j, k, u, 0.0));
    }
  }

  lemma {:induction false} NobodyHeard(cs: seq<Contact>, u: nat, d: nat)
    ensures HeardOf(cs, 0, u, d) <==> u == d
  {
    assert Leads(cs, 0, d, Start);
  }

  lemma AgedPositive(t: Tables, n: nat, u: nat, d: nat, now: real)
    requires t.Valid(n) && u < n && d < n && InUnit(t.p)
    ensures 0.0 <= AgedEntry(t, u, d, now) <= 1.0 && (AgedEntry(t, u, d, now) > 0.0 <==> t.p[u][d] > 0.0)
  {
    hide Times, Hours;
    var f := Pow(0.98, Hours(t.lastAge[u], now));
    PowDecreases(0.98, 0, Hours(t.lastAge[u], now));
    EntryInUnit(t.p, n, u, d);
    TimesMonotone(f, 0.0, t.p[u][d]);
    assert AgedEntry(t, u, d, now) == Times(f, t.p[u][d]) by {
      TimesCommute(t.p[u][d], f);
    }
    TimesInUnit(f, t.p[u][d]);
    if t.p[u][d] > 0.0 {
      TimesPositive(t.p[u][d], f);
    } else {
      TimesZero(f);
    }
  }

  /** Learning through a peer one has met is positive exactly when either side knew. */
  lemma LearnPositive(x: real, met: real, y: real)
    requires 0.0 <= x <= 1.0 && 0.0 < met && 0.0 <= y
    ensures x + Times(Times(Times(1.0 - x, met), y), 0.25) > 0.0 <==> x > 0.0 || y > 0.0
  {
    if x < 1.0 {
      TimesPositive(1.0 - x, met);
      if y > 0.0 {
        TimesPositive(Times(1.0 - x, met), y);
      } else {
        TimesZero(Times(1.0 - x, met));
      }
    } else {
      assert Times(0.0, met) == 0.0;
    }
  }

  /** One contact keeps the entries positive exactly where word has spread. */
  lemma ContactSpreads(t: Tables, n: nat, c: Contact, u: nat, d: nat)
    requires t.Valid(n) && c.a < n && c.b < n && c.a != c.b && u < n && d < n && u != d && InUnit(t.p)
    ensures Updated(t, n, c).p[u][d] > 0.0 <==>
      || t.p[u][d] > 0.0
      || (u == c.a && (c.b == d || t.p[c.b][d] > 0.0)) || (u == c.b && (c.a == d || t.p[c.a][d] > 0.0))
  {
    hide Updated, AgedEntry, Hours, InUnit, Times;
    ContactEntries(t, n, c);
    UpdatedInUnit(t, n, c);
    var a, b, p := c.a, c.b, Updated(t, n, c).p;
    AgedPositive(t, n, a, b, c.start);
    AgedPositive(t, n, b, a, c.start);
    if d != a && d != b {
      EntryInUnit(p, n, a, d);
      AgedPositive(t, n, a, d, c.start);
      AgedPositive(t, n, b, d, c.start);
      LearnPositive(AgedEntry(t, a, d, c.start), p[a][b], AgedEntry(t, b, d, c.start));
      LearnPositive(AgedEntry(t, b, d, c.start), p[b][a], p[a][d]);
    }
  }

  /** Over every run: a node rates another above 0 exactly when contacts in index
      order have led from that other node to it. */
  lemma {:induction false} PositiveIffHeardOf(cs: seq<Contact>, k: nat, n: nat, u: nat, d: nat)
    requires k <= |cs| && InRange(cs, n) && u < n && d < n && u != d
    requires forall i :: 0 <= i < |cs| ==> cs[i].a != cs[i].b
    ensures Predicted(cs, k, n).p[u][d] > 0.0 <==> HeardOf(cs, k, u, d)
  {
    hide Updated, HeardOf;
    if k == 0 {
      NobodyHeard(cs, u, d);
    } else {
      var c, t := cs[k - 1], Predicted(cs, k - 1, n);
      HeardStep(cs, k - 1, u, d);
      PredictabilitiesInUnit(cs, k - 1, n);
      ContactSpreads(t, n, c, u, d);
      PositiveIffHeardOf(cs, k - 1, n, u, d);
      StillHeardOfSelf(cs, k - 1, d);
      if c.a != d {
        PositiveIffHeardOf(cs, k - 1, n, c.a, d);
      }
      if c.b != d {
        PositiveIffHeardOf(cs, k - 1, n, c.b, d);
      }
    }
  }

  lemma StillHeardOfSelf(cs: seq<Contact>, k: nat, d: nat)
    ensures HeardOf(cs, k, d, d)
  {
    assert Leads(cs, k, d, Start);
  }

  /** So when contact `i` is used, a peer that contacts up to and including it have
      not connected to the destination is rated 0, and is handed no copy on merit. */
  lemma {:induction false} RatedAtContact(cs: seq<Contact>, i: nat, n: nat, u: nat, d: nat)
    requires i < |cs| && InRange(cs, n) && u < n && d < n && u != d
    requires forall x :: 0 <= x < |cs| ==> cs[x].a != cs[x].b
    ensures History(cs, |cs|, n)[i][u][d] > 0.0 <==> HeardOf(cs, i + 1, u, d)
  {
    hide HeardOf, Predicted;
    PositiveIffHeardOf(cs, i + 1, n, u, d);
  }
}
