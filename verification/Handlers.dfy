/** Several handlers at one node, each checking a message and marking it seen in
    two separate steps, as the two locks of the router allow. */
module Handlers {
  import opened Finite
  import opened Router

  /** `waiting` lists the ids that have passed their check and are still to be
      marked; `log` records the markings, each of which starts a processing. */
  datatype Local = Local(seen: SeenMap, clock: nat, waiting: seq<string>, log: seq<Processing>)

  datatype Event = Checks(m: MeshMessage) | Marks(index: nat) | Elapses(duration: nat)

  const Idle := Local(map[], 0, [], [])

  function Happen(us: NodeId, s: Local, e: Event): Local {
    match e
    case Checks(m) =>
      if Accepts(us, s.seen, m, s.clock) then s.(waiting := s.waiting + [m.messageId]) else s
    case Marks(index) =>
      if index >= |s.waiting| then s else
        var id := s.waiting[index];
        Local(Marked(s.seen, id, s.clock), s.clock, s.waiting[..index] + s.waiting[index + 1..],
              s.log + [Processing(us, id, s.clock)])
    case Elapses(duration) => s.(clock := s.clock + duration)
  }

  function AfterEvents(us: NodeId, events: seq<Event>): Local {
    if events == [] then Idle
    else Happen(us, AfterEvents(us, events[..|events| - 1]), events[|events| - 1])
  }

  /** What holds while no id waits twice: whatever waits was last marked before the
      window began. */
  predicate Orderly(us: NodeId, s: Local) {
    && FarApart(s.log) && (forall i :: 0 <= i < |s.log| ==> s.log[i].node == us)
    && (forall i :: 0 <= i < |s.log| ==> Remembers(s.seen, s.clock, s.log[i]))
    && (forall i :: 0 <= i < |s.log| && s.log[i].id in s.waiting ==> s.clock - s.log[i].time >= DEDUP_WINDOW_MS)
  }

  lemma StaysOrderly(us: NodeId, s: Local, e: Event)
    requires Orderly(us, s) && Distinct(s.waiting)
    ensures Orderly(us, Happen(us, s, e))
    ensures e.Marks? ==> Distinct(Happen(us, s, e).waiting)
  {
    var t := Happen(us, s, e);
    if e.Marks? && e.index < |s.waiting| {
      var id := s.waiting[e.index];
      assert id !in t.waiting;
    }
    forall i | 0 <= i < |s.log| ensures Remembers(t.seen, t.clock, s.log[i]) {
      assert Remembers(s.seen, s.clock, s.log[i]);
    }
  }

  ghost predicate NeverTwiceWaiting(us: NodeId, events: seq<Event>) {
    forall k :: 0 <= k <= |events| ==> Distinct(AfterEvents(us, events[..k]).waiting)
  }

  lemma {:induction false} AloneIsOrderly(us: NodeId, events: seq<Event>, k: nat)
    requires NeverTwiceWaiting(us, events) && k <= |events|
    ensures Orderly(us, AfterEvents(us, events[..k]))
  {
    if k > 0 {
      AloneIsOrderly(us, events, k - 1);
      assert events[..k][..k - 1] == events[..k - 1];
      StaysOrderly(us, AfterEvents(us, events[..k - 1]), events[k - 1]);
    }
  }

  /** While no two handlers of one id are between check and marking, one id is
      processed only at times at least a minute apart. */
  lemma {:induction false} AloneIsFarApart(us: NodeId, events: seq<Event>)
    requires NeverTwiceWaiting(us, events)
    ensures FarApart(AfterEvents(us, events).log)
  {
    AloneIsOrderly(us, events, |events|);
    assert events[..|events|] == events;
  }

  /** The state after the first `k` events and two markings. */
  function MarkedTwice(us: NodeId, events: seq<Event>, k: nat, i: nat, j: nat): Local
    requires k <= |events|
  {
    Happen(us, Happen(us, AfterEvents(us, events[..k]), Marks(i)), Marks(j))
  }

  /** Deduplication survives a schedule, wherever it is cut off and the waiting
      handlers go ahead, if and only if no id ever waits twice. */
  lemma FarApartIffNeverTwiceWaiting(us: NodeId, events: seq<Event>)
    ensures NeverTwiceWaiting(us, events)
      <==> forall k: nat, i: nat, j: nat :: k <= |events| ==> FarApart(MarkedTwice(us, events, k, i, j).log)
  {
    if NeverTwiceWaiting(us, events) {
      forall k: nat, i: nat, j: nat | k <= |events| ensures FarApart(MarkedTwice(us, events, k, i, j).log) {
        var s := AfterEvents(us, events[..k]);
        AloneIsOrderly(us, events, k);
        StaysOrderly(us, s, Marks(i));
        StaysOrderly(us, Happen(us, s, Marks(i)), Marks(j));
      }
    } else {
      var k :| 0 <= k <= |events| && !Distinct(AfterEvents(us, events[..k]).waiting);
      var s := AfterEvents(us, events[..k]);
      var i, j :| 0 <= i < j < |s.waiting| && s.waiting[i] == s.waiting[j];
      var log := MarkedTwice(us, events, k, j, i).log;
      assert log == s.log + [Processing(us, s.waiting[i], s.clock), Processing(us, s.waiting[i], s.clock)];
      assert log[|s.log|].id == log[|s.log| + 1].id;
    }
  }

  /** Two copies of one live message that are checked before either is marked are
      both processed. */
  lemma {:induction false} TwoCopiesBothPass(us: NodeId, m: MeshMessage)
    requires m.ttl > 0 && us !in m.path
    ensures AfterEvents(us, [Checks(m), Checks(m), Marks(0), Marks(0)]).log
      == [Processing(us, m.messageId, 0), Processing(us, m.messageId, 0)]
  {
    var id := m.messageId;
    var one, two := [Checks(m)], [Checks(m), Checks(m)];
    assert one[..0] == [] && two[..1] == one;
    assert AfterEvents(us, one).waiting == [id];
    assert AfterEvents(us, two) == Local(map[], 0, [id, id], []);
    var three, four := two + [Marks(0)], two + [Marks(0), Marks(0)];
    assert three[..2] == two && four[..3] == three;
    assert AfterEvents(us, three).waiting == [id] && AfterEvents(us, three).log == [Processing(us, id, 0)];
    assert AfterEvents(us, four).log == [Processing(us, id, 0), Processing(us, id, 0)];
    assert four == [Checks(m), Checks(m), Marks(0), Marks(0)];
  }

  /** With nobody waiting, a check followed at once by its marking is the atomic
      handler of the mesh. */
  lemma CheckThenMarkIsHandle(us: NodeId, s: Local, m: MeshMessage, peers: seq<PeerInfo>, score: Score,
      open: set<NodeId>)
    requires s.waiting == []
    ensures var h := Handle(us, s.seen, m, s.clock, peers, score, open);
      Happen(us, Happen(us, s, Checks(m)), Marks(0)) ==
        Local(h.seen, s.clock, [], s.log + if h.processed then [Processing(us, m.messageId, s.clock)] else [])
  {
    assert s.log + [] == s.log;
  }
}
