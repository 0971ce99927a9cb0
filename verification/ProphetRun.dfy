/** The PRoPHET run: one pass over the contacts that keeps the predictability
    matrix and the copies of every message up to date together. */
module ProphetRun {
  import opened ContactTraces
  import opened Delivery
  import opened Orders
  import opened Predictability
  import opened Reals
  import opened TraceBench

  // ----- Order of injection -----

  predicate SortedByGen(order: seq<nat>, msgs: seq<Msg>) {
    && (forall x :: 0 <= x < |order| ==> order[x] < |msgs|)
    && (forall x, y :: 0 <= x < y < |order| ==> msgs[order[x]].gen <= msgs[order[y]].gen)
  }

  function CreationTime(msgs: seq<Msg>): nat -> real {
    (i: nat) => if i < |msgs| then msgs[i].gen else 0.0
  }

  /** The indices of the messages, stably by creation time. */
  function OrderByGen(msgs: seq<Msg>): (r: seq<nat>)
    ensures SortedByGen(r, msgs)
    ensures forall i: nat :: i in r <==> i < |msgs|
  {
    var indices: seq<nat> := seq(|msgs|, i => i);
    SortSorts(indices, CreationTime(msgs));
    var r := Sort(indices, CreationTime(msgs));
    assert forall i: nat :: i in r <==> i < |msgs| by {
      forall i: nat ensures i in r <==> i < |msgs| {
        SortedMembers(indices, CreationTime(msgs), i);
        assert i < |msgs| ==> indices[i] == i;
      }
    }
    assert Ascending(r, CreationTime(msgs));
    assert forall x :: 0 <= x < |r| ==> r[x] in r;
    r
  }

  // ----- Every message's state inside the run -----

  /** The flags and delivery record of a message agree with `s`; before it is
      injected nobody is flagged and `s` is still the initial state. */
  predicate Tracks(flags: seq<bool>, done: Arrival, s: Copies, m: Msg, injected: bool) {
    && done == s.delivered
    && (if injected then m.src in s.holders && Marks(flags, s.holders)
        else s == Injected(m) && Marks(flags, {}))
  }

  predicate AllTracked(msgs: seq<Msg>, n: nat, holders: seq<seq<bool>>, done: seq<Arrival>, sims: seq<Copies>,
      injected: set<nat>) {
    && |holders| == |done| == |sims| == |msgs|
    && forall i :: 0 <= i < |msgs| ==> |holders[i]| == n && Tracks(holders[i], done[i], sims[i], msgs[i], i in injected)
  }

  function TotalSent(sims: seq<Copies>): nat {
    if sims == [] then 0 else TotalSent(sims[..|sims| - 1]) + sims[|sims| - 1].sent
  }

  lemma {:induction false} TotalSentUpdate(sims: seq<Copies>, i: nat, s: Copies)
    requires i < |sims|
    ensures TotalSent(sims[i := s]) == TotalSent(sims) - sims[i].sent + s.sent
  {
    var front, after := sims[..|sims| - 1], sims[i := s];
    if i < |sims| - 1 {
      TotalSentUpdate(front, i, s);
      assert after[..|sims| - 1] == front[i := s];
    } else {
      assert after[..|sims| - 1] == front;
    }
  }

  lemma {:induction false} TallyCountsSent(outcomes: seq<Copies>, msgs: seq<Msg>, k: nat)
    requires k <= |outcomes| == |msgs|
    ensures Tally(outcomes, msgs, k).transmissions == TotalSent(outcomes[..k])
  {
    if k > 0 {
      TallyCountsSent(outcomes, msgs, k - 1);
      assert outcomes[..k][..k - 1] == outcomes[..k - 1];
    }
  }

  lemma {:induction false} NothingSent(msgs: seq<Msg>)
    ensures TotalSent(seq(|msgs|, i requires 0 <= i < |msgs| => Injected(msgs[i]))) == 0
  {
    if msgs != [] {
      var front := msgs[..|msgs| - 1];
      NothingSent(front);
      assert seq(|msgs|, i requires 0 <= i < |msgs| => Injected(msgs[i]))[..|msgs| - 1]
          == seq(|front|, i requires 0 <= i < |front| => Injected(front[i]));
    }
  }

  // ----- The predictability update, in place -----

  method AgeRow(p: Matrix, lastAge: seq<real>, ghost n: nat, node: nat, now: real) returns (q: Matrix, aged: seq<real>)
    requires Tables(p, lastAge).Valid(n) && node < n
    ensures Tables(q, aged) == Aged(Tables(p, lastAge), n, node, now)
  {
    q, aged := p, lastAge;
    var steps := ((now - lastAge[node]) / AGE_UNIT).Floor;
    if steps > 0 {
      var factor := Pow(GAMMA, steps);
      var row := p[node];
      for x := 0 to |row|
        invariant |row| == n
        invariant forall y :: 0 <= y < n ==> row[y] == if y < x then Scale(p[node], factor)[y] else p[node][y]
      {
        row := row[x := row[x] * factor];
      }
      assert row == Scale(p[node], factor);
      q, aged := p[node := row], lastAge[node := now];
    }
  }

  method LearnOne(p: Matrix, n: nat, u: nat, v: nat, d: nat) returns (q: Matrix)
    requires Square(p, n) && u < n && v < n && d < n
    ensures q == Learned(p, n, u, v, d)
  {
    hide Times;
    var x, met, y := p[u][d], p[u][v], p[v][d];
    q := Put(p, u, d, x + Times(Times(Times(1.0 - x, met), y), BETA));
  }

  method UpdateTables(p: Matrix, lastAge: seq<real>, n: nat, c: Contact) returns (q: Matrix, aged: seq<real>)
    requires Tables(p, lastAge).Valid(n) && c.a < n && c.b < n
    ensures Tables(q, aged) == Updated(Tables(p, lastAge), n, c)
  {
    var a, b := c.a, c.b;
    q, aged := AgeRow(p, lastAge, n, a, c.start);
    q, aged := AgeRow(q, aged, n, b, c.start);
    q := Put(q, a, b, q[a][b] + (1.0 - q[a][b]) * ENCOUNTER);
    q := Put(q, b, a, q[b][a] + (1.0 - q[b][a]) * ENCOUNTER);
    ghost var met := q;
    for d := 0 to n
      invariant q == Transitive(met, n, a, b, d)
    {
      if d != a && d != b {
        q := LearnOne(q, n, a, b, d);
        q := LearnOne(q, n, b, a, d);
      }
    }
  }

  // ----- Injection and forwarding -----

  lemma InjectOne(msgs: seq<Msg>, n: nat, holders: seq<seq<bool>>, done: seq<Arrival>, sims: seq<Copies>,
      injected: set<nat>, mi: nat)
    requires ValidMsgs(msgs, n) && AllTracked(msgs, n, holders, done, sims, injected) && mi < |msgs|
    ensures AllTracked(msgs, n, holders[mi := holders[mi][msgs[mi].src := true]], done, sims, injected + {mi})
  {
    assert Tracks(holders[mi], done[mi], sims[mi], msgs[mi], mi in injected);
    assert Tracks(holders[mi][msgs[mi].src := true], done[mi], sims[mi], msgs[mi], true);
  }

  /** Once the next message in order is not due, exactly the due ones are in. */
  lemma InjectedAreDue(msgs: seq<Msg>, order: seq<nat>, next: nat, injected: set<nat>, now: real)
    requires SortedByGen(order, msgs) && (forall i: nat :: i in order <==> i < |msgs|)
    requires next <= |order| && (forall i :: i in injected <==> i in order[..next])
    requires forall i :: i in injected ==> i < |msgs| && msgs[i].gen <= now
    requires next < |order| ==> msgs[order[next]].gen > now
    ensures forall i: nat :: i < |msgs| ==> (i in injected <==> msgs[i].gen <= now)
  {
    forall x | 0 <= x < next ensures order[x] in injected {
      assert order[x] == order[..next][x];
    }
    forall i: nat | i < |msgs| && i !in injected ensures msgs[i].gen > now {
      assert i in order;
      var x :| 0 <= x < |order| && order[x] == i;
      assert x >= next;
    }
  }

  /** Injects every message created by `now`. */
  method Inject(msgs: seq<Msg>, n: nat, order: seq<nat>, next: nat, holders: seq<seq<bool>>,
                ghost done: seq<Arrival>, ghost sims: seq<Copies>, ghost injected: set<nat>, now: real)
    returns (next': nat, holders': seq<seq<bool>>, ghost injected': set<nat>)
    requires ValidMsgs(msgs, n) && SortedByGen(order, msgs) && (forall i: nat :: i in order <==> i < |msgs|)
    requires next <= |order| && (forall i :: i in injected <==> i in order[..next])
    requires forall i :: i in injected ==> i < |msgs| && msgs[i].gen <= now
    requires AllTracked(msgs, n, holders, done, sims, injected)
    ensures next <= next' <= |order| && (forall i :: i in injected' <==> i in order[..next'])
    ensures forall i: nat :: i < |msgs| ==> (i in injected' <==> msgs[i].gen <= now)
    ensures AllTracked(msgs, n, holders', done, sims, injected')
  {
    next', holders', injected' := next, holders, injected;
    while next' < |order| && msgs[order[next']].gen <= now
      invariant next <= next' <= |order|
      invariant forall i :: i in injected' <==> i in order[..next']
      invariant forall i :: i in injected' ==> i < |msgs| && msgs[i].gen <= now
      invariant AllTracked(msgs, n, holders', done, sims, injected')
    {
      var mi := order[next'];
      InjectOne(msgs, n, holders', done, sims, injected', mi);
      assert order[..next' + 1] == order[..next'] + [mi];
      holders' := holders'[mi := holders'[mi][msgs[mi].src := true]];
      next', injected' := next' + 1, injected' + {mi};
    }
    InjectedAreDue(msgs, order, next', injected', now);
  }

  /** One contact offered to one message. */
  method ForwardOne(c: Contact, n: nat, m: Msg, deadline: real, p: Matrix, flags: seq<bool>, done: Arrival,
                    ghost s: Copies, ghost injected: bool)
    returns (flags': seq<bool>, done': Arrival, sent: nat)
    requires Square(p, n) && c.a < n && c.b < n && m.dst < n && |flags| == n
    requires Tracks(flags, done, s, m, injected) && (injected <==> m.gen <= c.start)
    ensures var s' := ProphetStep(s, c, n, m, deadline, p);
      |flags'| == n && Tracks(flags', done', s', m, injected) && s'.sent == s.sent + sent
  {
    flags', done', sent := flags, done, 0;
    var now := c.start;
    if done.At? || now < m.gen || now - m.gen > deadline {
      return;
    }
    var ha, hb := flags[c.a], flags[c.b];
    if ha == hb {
      return;
    }
    var holder, peer := if ha then c.a else c.b, if ha then c.b else c.a;
    if peer == m.dst {
      flags', done', sent := flags[peer := true], At(now), 1;
    } else if p[peer][m.dst] > p[holder][m.dst] {
      flags', sent := flags[peer := true], 1;
    }
  }

  /** All messages' states after one contact. */
  ghost function Stepped(sims: seq<Copies>, c: Contact, n: nat, msgs: seq<Msg>, deadline: real, p: Matrix)
    : (r: seq<Copies>)
    requires |sims| == |msgs| && Square(p, n) && c.a < n && c.b < n && ValidMsgs(msgs, n)
    ensures |r| == |msgs|
  {
    seq(|msgs|, i requires 0 <= i < |msgs| => ProphetStep(sims[i], c, n, msgs[i], deadline, p))
  }

  /** One contact offered to every message. */
  method ForwardAll(c: Contact, n: nat, msgs: seq<Msg>, deadline: real, p: Matrix, holders: seq<seq<bool>>,
                    done: seq<Arrival>, ghost sims: seq<Copies>, ghost injected: set<nat>)
    returns (holders': seq<seq<bool>>, done': seq<Arrival>, sent: nat)
    requires Square(p, n) && c.a < n && c.b < n && ValidMsgs(msgs, n)
    requires AllTracked(msgs, n, holders, done, sims, injected)
    requires forall i: nat :: i < |msgs| ==> (i in injected <==> msgs[i].gen <= c.start)
    ensures AllTracked(msgs, n, holders', done', Stepped(sims, c, n, msgs, deadline, p), injected)
    ensures sent == TotalSent(Stepped(sims, c, n, msgs, deadline, p)) - TotalSent(sims)
  {
    holders', done', sent := holders, done, 0;
    ghost var sims' := sims;
    for mi := 0 to |msgs|
      invariant AllTracked(msgs, n, holders', done', sims', injected)
      invariant forall i :: 0 <= i < |msgs| ==>
        sims'[i] == if i < mi then ProphetStep(sims[i], c, n, msgs[i], deadline, p) else sims[i]
      invariant TotalSent(sims') == TotalSent(sims) + sent
    {
      var flags, d, one := ForwardOne(c, n, msgs[mi], deadline, p, holders'[mi], done'[mi], sims'[mi], mi in injected);
      ghost var s := ProphetStep(sims[mi], c, n, msgs[mi], deadline, p);
      TotalSentUpdate(sims', mi, s);
      holders', done', sims' := holders'[mi := flags], done'[mi := d], sims'[mi := s];
      sent := sent + one;
    }
    assert sims' == Stepped(sims, c, n, msgs, deadline, p);
  }

  /** Reads the delivery records off into the statistics. */
  method CountDone(msgs: seq<Msg>, done: seq<Arrival>, transmissions: nat, ghost sims: seq<Copies>) returns (st: Stat)
    requires |done| == |sims| == |msgs| && forall i :: 0 <= i < |msgs| ==> done[i] == sims[i].delivered
    requires transmissions == TotalSent(sims)
    ensures st == Tally(sims, msgs, |msgs|)
  {
    TallyCountsSent(sims, msgs, |msgs|);
    assert sims[..|msgs|] == sims;
    st := Stat(0, |msgs|, 0.0, transmissions);
    for mi := 0 to |msgs|
      invariant st.transmissions == transmissions
      invariant st.(transmissions := 0) == Tally(sims, msgs, mi).(transmissions := 0)
    {
      if done[mi].At? {
        st := st.(delivered := st.delivered + 1, delaySum := st.delaySum + (done[mi].time - msgs[mi].gen));
      }
    }
  }

  /** Every message's state is what its scheme prescribes after `k` contacts. */
  ghost predicate Simulates(cs: seq<Contact>, k: nat, n: nat, msgs: seq<Msg>, deadline: real, history: seq<Matrix>,
      sims: seq<Copies>)
    requires k <= |cs| == |history| && ValidHistory(history, n) && InRange(cs, n) && ValidMsgs(msgs, n)
  {
    |sims| == |msgs| && forall i :: 0 <= i < |msgs| ==> sims[i] == Prophet(cs, k, n, msgs[i], deadline, history)
  }

  /** Before the first contact nothing has happened to any message. */
  lemma {:induction false} NothingHappenedYet(cs: seq<Contact>, n: nat, msgs: seq<Msg>, deadline: real,
      history: seq<Matrix>, holders: seq<seq<bool>>, done: seq<Arrival>, sims: seq<Copies>)
    requires |cs| == |history| && ValidHistory(history, n) && InRange(cs, n) && ValidMsgs(msgs, n)
    requires holders == seq(|msgs|, _ => seq(n, _ => false)) && done == seq(|msgs|, _ => Never)
    requires sims == seq(|msgs|, i requires 0 <= i < |msgs| => Injected(msgs[i]))
    ensures AllTracked(msgs, n, holders, done, sims, {}) && TotalSent(sims) == 0
    ensures Simulates(cs, 0, n, msgs, deadline, history, sims)
  {
    NothingSent(msgs);
  }

  lemma SimulatesNext(cs: seq<Contact>, k: nat, n: nat, msgs: seq<Msg>, deadline: real, history: seq<Matrix>,
      sims: seq<Copies>, sims': seq<Copies>)
    requires k < |cs| == |history| && ValidHistory(history, n) && InRange(cs, n) && ValidMsgs(msgs, n)
    requires Simulates(cs, k, n, msgs, deadline, history, sims) && |sims'| == |msgs|
    requires forall i :: 0 <= i < |msgs| ==> sims'[i] == ProphetStep(sims[i], cs[k], n, msgs[i], deadline, history[k])
    ensures Simulates(cs, k + 1, n, msgs, deadline, history, sims')
  {
    hide ProphetStep;
  }

  /** The messages injected so far are the first `next` in order, none of which
      was created after `now`. */
  ghost predicate Queued(msgs: seq<Msg>, order: seq<nat>, next: nat, injected: set<nat>, now: real) {
    && next <= |order| && (forall i :: i in injected <==> i in order[..next])
    && forall i :: i in injected ==> i < |msgs| && msgs[i].gen <= now
  }

  lemma StillQueued(msgs: seq<Msg>, order: seq<nat>, next: nat, injected: set<nat>, now: real, later: real)
    requires Queued(msgs, order, next, injected, now) && now <= later
    ensures Queued(msgs, order, next, injected, later)
  {
  }

  lemma NobodyQueued(msgs: seq<Msg>, order: seq<nat>, cs: seq<Contact>)
    ensures forall i :: 0 <= i < |cs| ==> Queued(msgs, order, 0, {}, cs[i].start)
  {
  }

  /** One contact: inject, update the predictabilities, forward. */
  method RunContact(cs: seq<Contact>, ghost k: nat, c: Contact, n: nat, msgs: seq<Msg>, deadline: real,
                    ghost history: seq<Matrix>, p: Matrix, lastAge: seq<real>, order: seq<nat>, next: nat,
                    holders: seq<seq<bool>>, done: seq<Arrival>, ghost sims: seq<Copies>, ghost injected: set<nat>)
    returns (p': Matrix, lastAge': seq<real>, next': nat, holders': seq<seq<bool>>, done': seq<Arrival>, sent: nat,
             ghost sims': seq<Copies>, ghost injected': set<nat>)
    requires k < |cs| == |history| && c == cs[k] && ValidHistory(history, n) && InRange(cs, n) && ValidMsgs(msgs, n)
    requires SortedByGen(order, msgs) && (forall i: nat :: i in order <==> i < |msgs|)
    requires Tables(p, lastAge).Valid(n) && Updated(Tables(p, lastAge), n, c).p == history[k]
    requires Queued(msgs, order, next, injected, c.start)
    requires AllTracked(msgs, n, holders, done, sims, injected) && Simulates(cs, k, n, msgs, deadline, history, sims)
    ensures Tables(p', lastAge') == Updated(Tables(p, lastAge), n, c)
    ensures Queued(msgs, order, next', injected', c.start)
    ensures AllTracked(msgs, n, holders', done', sims', injected')
      && Simulates(cs, k + 1, n, msgs, deadline, history, sims')
    ensures TotalSent(sims') == TotalSent(sims) + sent
  {
    hide Updated, ProphetStep, AllTracked, Simulates, TotalSent;
    next', holders', injected' := Inject(msgs, n, order, next, holders, done, sims, injected, c.start);
    p', lastAge' := UpdateTables(p, lastAge, n, c);
    sims' := Stepped(sims, c, n, msgs, deadline, p');
    holders', done', sent := ForwardAll(c, n, msgs, deadline, p', holders', done, sims, injected');
    SimulatesNext(cs, k, n, msgs, deadline, history, sims, sims');
  }

  /** What the run keeps: the tables, how many messages have been injected, and
      flags, delivery records and transmissions. */
  datatype Progress = Progress(
    p: Matrix,
    lastAge: seq<real>,
    next: nat,
    holders: seq<seq<bool>>,
    done: seq<Arrival>,
    transmissions: nat)

  ghost predicate IsOrder(order: seq<nat>, msgs: seq<Msg>) {
    SortedByGen(order, msgs) && forall i: nat :: i in order <==> i < |msgs|
  }

  /** Everything is as it should be after the first `k` contacts. */
  ghost predicate Running(trace: ContactTrace, msgs: seq<Msg>, deadline: real, order: seq<nat>, k: nat, s: Progress,
                          sims: seq<Copies>, injected: set<nat>)
    requires trace.Valid() && ValidMsgs(msgs, trace.n) && k <= |trace.contacts|
  {
    var cs, n := trace.contacts, trace.n;
    && IsOrder(order, msgs)
    && Tables(s.p, s.lastAge) == Predicted(cs, k, n)
    && (k < |cs| ==> Queued(msgs, order, s.next, injected, cs[k].start))
    && AllTracked(msgs, n, s.holders, s.done, sims, injected)
    && Simulates(cs, k, n, msgs, deadline, History(cs, |cs|, n), sims)
    && s.transmissions == TotalSent(sims)
  }

  method Prepare(trace: ContactTrace, msgs: seq<Msg>, deadline: real)
    returns (order: seq<nat>, s: Progress, ghost sims: seq<Copies>)
    requires trace.Valid() && ValidMsgs(msgs, trace.n)
    ensures Running(trace, msgs, deadline, order, 0, s, sims, {})
  {
    var cs, n := trace.contacts, trace.n;
    order := OrderByGen(msgs);
    var holders := seq(|msgs|, _ => seq(n, _ => false));
    var done := seq(|msgs|, _ => Never);
    s := Progress(Fresh(n).p, Fresh(n).lastAge, 0, holders, done, 0);
    sims := seq(|msgs|, i requires 0 <= i < |msgs| => Injected(msgs[i]));
    NothingHappenedYet(cs, n, msgs, deadline, History(cs, |cs|, n), holders, done, sims);
    NobodyQueued(msgs, order, cs);
    hide AllTracked, TotalSent, Injected, Simulates, OrderByGen, SortedByGen, Queued, History, Fresh;
  }

  method OneContact(trace: ContactTrace, msgs: seq<Msg>, deadline: real, order: seq<nat>, k: nat, s: Progress,
                    ghost sims: seq<Copies>, ghost injected: set<nat>)
    returns (t: Progress, ghost sims': seq<Copies>, ghost injected': set<nat>)
    requires trace.Valid() && ValidMsgs(msgs, trace.n) && k < |trace.contacts|
    requires Running(trace, msgs, deadline, order, k, s, sims, injected)
    ensures Running(trace, msgs, deadline, order, k + 1, t, sims', injected')
  {
    hide AllTracked, TotalSent, Updated, Simulates, SortedByGen, Queued, Fresh, ValidMsgs;
    var cs, n := trace.contacts, trace.n;
    ghost var history := History(cs, |cs|, n);
    assert Predicted(cs, k + 1, n) == Updated(Predicted(cs, k, n), n, cs[k]);
    assert Predicted(cs, k + 1, n).p == history[k];
    hide History, Predicted;
    var p, lastAge, next, holders, done, sent;
    p, lastAge, next, holders, done, sent, sims', injected' :=
      RunContact(cs, k, cs[k], n, msgs, deadline, history, s.p, s.lastAge, order, s.next, s.holders, s.done, sims,
        injected);
    t := Progress(p, lastAge, next, holders, done, s.transmissions + sent);
    if k + 1 < |cs| {
      StillQueued(msgs, order, next, injected', cs[k].start, cs[k + 1].start);
    }
  }

  method RunProphet(trace: ContactTrace, msgs: seq<Msg>, deadline: real) returns (st: Stat)
    requires trace.Valid() && ValidMsgs(msgs, trace.n)
    ensures st == Tally(ProphetOutcomes(trace, |trace.contacts|, msgs, deadline), msgs, |msgs|)
  {
    hide Running, Tally, ValidMsgs, ProphetOutcomes, TotalSent;
    ghost var injected: set<nat> := {};
    var order, s;
    ghost var sims;
    order, s, sims := Prepare(trace, msgs, deadline);
    for k := 0 to |trace.contacts|
      invariant Running(trace, msgs, deadline, order, k, s, sims, injected)
    {
      s, sims, injected := OneContact(trace, msgs, deadline, order, k, s, sims, injected);
    }
    FinalOutcomes(trace, msgs, deadline, order, s, sims, injected);
    st := CountDone(msgs, s.done, s.transmissions, sims);
  }

  lemma {:induction false} FinalOutcomes(trace: ContactTrace, msgs: seq<Msg>, deadline: real, order: seq<nat>,
      s: Progress, sims: seq<Copies>, injected: set<nat>)
    requires trace.Valid() && ValidMsgs(msgs, trace.n)
    requires Running(trace, msgs, deadline, order, |trace.contacts|, s, sims, injected)
    ensures sims == ProphetOutcomes(trace, |trace.contacts|, msgs, deadline)
    ensures |s.done| == |sims| && forall i :: 0 <= i < |msgs| ==> s.done[i] == sims[i].delivered
    ensures s.transmissions == TotalSent(sims)
  {
    hide Predicted, Queued, IsOrder, TotalSent, Prophet;
  }
}
