/** How much work one mesh message can cause: every run terminates by the hop
    count alone, and deduplication bounds the copies linearly. */
module MeshBounds {
  import opened Finite
  import opened Options
  import opened Router
  import opened Mesh

  // ----- Termination by the hop count -----

  /** Receives one copy can still cause: itself, and those of at most three
      copies with one hop less. */
  function Weight(ttl: nat): nat {
    if ttl == 0 then 1 else 1 + MAX_FORWARD_PEERS * Weight(ttl - 1)
  }

  function Potential(copies: seq<Copy>): nat {
    if copies == [] then 0 else Potential(copies[..|copies| - 1]) + Weight(copies[|copies| - 1].msg.ttl)
  }

  lemma {:induction false} PotentialOfSum(a: seq<Copy>, b: seq<Copy>)
    ensures Potential(a + b) == Potential(a) + Potential(b)
  {
    if b == [] {
      assert a + b == a;
    } else {
      assert (a + b)[..|a + b| - 1] == a + b[..|b| - 1];
      PotentialOfSum(a, b[..|b| - 1]);
    }
  }

  lemma PotentialOfOne(c: Copy)
    ensures Potential([c]) == Weight(c.msg.ttl)
  {
    hide Weight;
    assert [c][..0] == [];
  }

  lemma {:induction false} PotentialOfMiddle(front: seq<Copy>, c: Copy, rest: seq<Copy>)
    ensures Potential(front + [c] + rest) == Potential(front + rest) + Weight(c.msg.ttl)
  {
    hide Weight, Potential;
    PotentialOfSum(front + [c], rest);
    PotentialOfSum(front, [c]);
    PotentialOfSum(front, rest);
    PotentialOfOne(c);
  }

  lemma {:induction false} PotentialWithout(copies: seq<Copy>, i: nat)
    requires i < |copies|
    ensures Potential(Without(copies, i)) == Potential(copies) - Weight(copies[i].msg.ttl)
  {
    hide Weight, Potential;
    SplitAround(copies, i);
    PotentialOfMiddle(copies[..i], copies[i], copies[i + 1..]);
  }

  lemma SplitAround<T>(s: seq<T>, i: nat)
    requires i < |s|
    ensures s == s[..i] + [s[i]] + s[i + 1..]
  {
  }

  lemma {:induction false} PotentialOfEquals(copies: seq<Copy>, ttl: nat)
    requires forall i :: 0 <= i < |copies| ==> copies[i].msg.ttl == ttl
    ensures Potential(copies) == |copies| * Weight(ttl)
  {
    if copies != [] {
      PotentialOfEquals(copies[..|copies| - 1], ttl);
    }
  }

  /** Handling a copy uses up at least one unit of potential, whatever the seen
      map says. */
  lemma ReceiveLowersPotential(s: State, step: Step)
    requires Enabled(s, step) && step.Receives?
    ensures Potential(Apply(s, step).inflight) + 1 <= Potential(s.inflight)
  {
    hide Handle, Hops, Potential, Weight;
    var c, h := s.inflight[step.index], HandledBy(s, step);
    var copies := Launch(h.sends, c.receiver);
    HandleSends(c.receiver, SeenBy(s, c.receiver), c.msg, s.clock, step.peers, step.score, step.open);
    PotentialWithout(s.inflight, step.index);
    PotentialOfSum(Without(s.inflight, step.index), copies);
    CopiesWeighLess(copies, c.msg.ttl);
  }

  /** At most three copies with one hop less weigh less than the copy they replace. */
  lemma {:induction false} CopiesWeighLess(copies: seq<Copy>, ttl: nat)
    requires |copies| <= MAX_FORWARD_PEERS && (copies != [] ==> ttl > 0)
    requires forall i :: 0 <= i < |copies| ==> copies[i].msg.ttl == ttl - 1
    ensures Potential(copies) + 1 <= Weight(ttl)
  {
    if copies != [] {
      PotentialOfEquals(copies, ttl - 1);
      AtMostThree(|copies|, Weight(ttl - 1));
    }
  }

  lemma AtMostThree(k: nat, w: nat)
    requires k <= MAX_FORWARD_PEERS
    ensures k * w <= MAX_FORWARD_PEERS * w
  {
  }

  /** First-hop copies put in flight along a run. */
  ghost function FirstHops(steps: seq<Step>): nat
    requires IsRun(steps)
  {
    if steps == [] then 0 else
      var front, last := steps[..|steps| - 1], steps[|steps| - 1];
      FirstHops(front) +
        if last.Originates? then |Originate(last.node, last.to, last.data, last.id, last.active).copies| else 0
  }

  function Receives(steps: seq<Step>): nat {
    if steps == [] then 0 else Receives(steps[..|steps| - 1]) + if steps[|steps| - 1].Receives? then 1 else 0
  }

  lemma OriginateAddsPotential(s: State, step: Step)
    requires Enabled(s, step) && step.Originates?
    ensures Potential(Apply(s, step).inflight)
      == Potential(s.inflight)
        + |Originate(step.node, step.to, step.data, step.id, step.active).copies| * Weight(DEFAULT_TTL)
  {
    var copies := Launch(Originate(step.node, step.to, step.data, step.id, step.active).copies, step.node);
    PotentialOfSum(s.inflight, copies);
    PotentialOfEquals(copies, DEFAULT_TTL);
  }

  lemma OtherStepsAddNothing(s: State, step: Step)
    requires Enabled(s, step) && !step.Originates? && !step.Receives?
    ensures Potential(Apply(s, step).inflight) <= Potential(s.inflight)
  {
    hide Weight;
    if step.Loses? {
      PotentialWithout(s.inflight, step.index);
    }
  }

  lemma Distribute(a: nat, b: nat, w: nat)
    ensures (a + b) * w == a * w + b * w
  {
  }

  lemma {:induction false} ReceivesBounded(steps: seq<Step>)
    requires IsRun(steps)
    ensures Receives(steps) + Potential(After(steps).inflight) <= FirstHops(steps) * Weight(DEFAULT_TTL)
    decreases |steps|
  {
    hide Weight, Apply, Originate;
    if steps != [] {
      var front, last := steps[..|steps| - 1], steps[|steps| - 1];
      var s := After(front);
      ReceivesBounded(front);
      assert After(steps) == Apply(s, last);
      assert Receives(steps) == Receives(front) + if last.Receives? then 1 else 0;
      assert FirstHops(steps) == FirstHops(front)
        + if last.Originates? then |Originate(last.node, last.to, last.data, last.id, last.active).copies| else 0;
      if last.Originates? {
        OriginateAddsPotential(s, last);
        Distribute(FirstHops(front), |Originate(last.node, last.to, last.data, last.id, last.active).copies|,
          Weight(DEFAULT_TTL));
      } else if last.Receives? {
        ReceiveLowersPotential(s, last);
      } else {
        OtherStepsAddNothing(s, last);
      }
    }
  }

  /** Every run handles at most 88573 copies per first hop, with or without
      working deduplication. */
  lemma {:induction false} RunsTerminate(steps: seq<Step>)
    requires IsRun(steps)
    ensures Receives(steps) <= FirstHops(steps) * 88573
  {
    ReceivesBounded(steps);
    assert Weight(2) == 13 && Weight(4) == 121 && Weight(6) == 1093 && Weight(8) == 9841;
    assert Weight(DEFAULT_TTL) == 88573;
  }

  // ----- The same for each message sent -----

  /** The copies of the message `id`, in order. */
  function CopiesOf(copies: seq<Copy>, id: string): seq<Copy> {
    if copies == [] then [] else
      var last := copies[|copies| - 1];
      CopiesOf(copies[..|copies| - 1], id) + if last.msg.messageId == id then [last] else []
  }

  lemma {:induction false} CopiesOfSum(a: seq<Copy>, b: seq<Copy>, id: string)
    ensures CopiesOf(a + b, id) == CopiesOf(a, id) + CopiesOf(b, id)
  {
    if b == [] {
      assert a + b == a;
    } else {
      assert (a + b)[..|a + b| - 1] == a + b[..|b| - 1];
      CopiesOfSum(a, b[..|b| - 1], id);
    }
  }

  lemma {:induction false} CopiesOfAlike(copies: seq<Copy>, id: string, other: string)
    requires forall i :: 0 <= i < |copies| ==> copies[i].msg.messageId == other
    ensures CopiesOf(copies, id) == if other == id then copies else []
  {
    if copies != [] {
      CopiesOfAlike(copies[..|copies| - 1], id, other);
    }
  }

  /** Receives the copies of `id` in flight can still cause. */
  function PotentialFor(copies: seq<Copy>, id: string): nat {
    Potential(CopiesOf(copies, id))
  }

  lemma PotentialForWithout(copies: seq<Copy>, i: nat, id: string)
    requires i < |copies|
    ensures PotentialFor(Without(copies, i), id)
      == PotentialFor(copies, id) - if copies[i].msg.messageId == id then Weight(copies[i].msg.ttl) else 0
  {
    hide Weight, Potential, CopiesOf;
    var front, c, rest := copies[..i], copies[i], copies[i + 1..];
    SplitAround(copies, i);
    CopiesOfSum(front + [c], rest, id);
    CopiesOfSum(front, [c], id);
    CopiesOfSum(front, rest, id);
    CopiesOfAlike([c], id, c.msg.messageId);
    if c.msg.messageId == id {
      PotentialOfMiddle(CopiesOf(front, id), c, CopiesOf(rest, id));
    } else {
      assert CopiesOf(front, id) + [] == CopiesOf(front, id);
    }
  }

  lemma {:induction false} PotentialForMore(copies: seq<Copy>, more: seq<Copy>, id: string, other: string)
    requires forall i :: 0 <= i < |more| ==> more[i].msg.messageId == other
    ensures PotentialFor(copies + more, id) == PotentialFor(copies, id) + if other == id then Potential(more) else 0
  {
    hide Potential, CopiesOf;
    CopiesOfSum(copies, more, id);
    CopiesOfAlike(more, id, other);
    PotentialOfSum(CopiesOf(copies, id), if other == id then more else []);
    assert Potential([]) == 0 by {
      PotentialOfEquals([], 0);
    }
  }

  /** Copies of `id` handled along a run. */
  ghost function ReceivesOf(steps: seq<Step>, id: string): nat
    requires IsRun(steps)
  {
    if steps == [] then 0 else
      var front, last := steps[..|steps| - 1], steps[|steps| - 1];
      ReceivesOf(front, id) + if last.Receives? && After(front).inflight[last.index].msg.messageId == id then 1 else 0
  }

  function FanoutOf(s: State, id: string): nat {
    if id in s.origins then s.origins[id].fanout else 0
  }

  lemma ReceiveIsPaidFor(s: State, step: Step, id: string)
    requires Enabled(s, step) && step.Receives?
    ensures PotentialFor(Apply(s, step).inflight, id)
        + (if s.inflight[step.index].msg.messageId == id then 1 else 0)
      <= PotentialFor(s.inflight, id)
  {
    hide Weight, Potential, PotentialFor, Hops, Handle;
    var c, h := s.inflight[step.index], HandledBy(s, step);
    var copies := Launch(h.sends, c.receiver);
    HandleSends(c.receiver, SeenBy(s, c.receiver), c.msg, s.clock, step.peers, step.score, step.open);
    PotentialForWithout(s.inflight, step.index, id);
    PotentialForMore(Without(s.inflight, step.index), copies, id, c.msg.messageId);
    CopiesWeighLess(copies, c.msg.ttl);
  }

  lemma OriginateIsPaidFor(s: State, step: Step, id: string)
    requires Enabled(s, step) && step.Originates?
    ensures PotentialFor(Apply(s, step).inflight, id)
      == PotentialFor(s.inflight, id) + if step.id == id then FanoutOf(Apply(s, step), id) * Weight(DEFAULT_TTL) else 0
  {
    hide Weight, Potential, PotentialFor, Hops;
    var copies := Launch(Originate(step.node, step.to, step.data, step.id, step.active).copies, step.node);
    PotentialForMore(s.inflight, copies, id, step.id);
    PotentialOfEquals(copies, DEFAULT_TTL);
  }

  /** One step, for one message: what it handles is paid from the potential, and
      only sending the message under that id adds any. */
  lemma StepIsPaidFor(s: State, step: Step, id: string)
    requires Enabled(s, step)
    ensures var t := Apply(s, step);
      && FanoutOf(s, id) <= FanoutOf(t, id)
      && PotentialFor(t.inflight, id)
           + (if step.Receives? && s.inflight[step.index].msg.messageId == id then 1 else 0)
         <= PotentialFor(s.inflight, id) + (FanoutOf(t, id) - FanoutOf(s, id)) * Weight(DEFAULT_TTL)
  {
    hide Weight, PotentialFor, Hops, Originate, HandledBy, Launch;
    match step
    case Originates(_, _, _, _, _) =>
      OriginateIsPaidFor(s, step, id);
    case Receives(_, _, _, _) =>
      ReceiveIsPaidFor(s, step, id);
    case Loses(index) =>
      PotentialForWithout(s.inflight, index, id);
    case Waits(_) =>
    case Interferes(_, _) =>
  }

  lemma NothingInFlight(id: string)
    ensures PotentialFor(Quiet.inflight, id) == 0
  {
  }

  lemma {:induction false} ReceivesOfBounded(steps: seq<Step>, id: string)
    requires IsRun(steps)
    ensures ReceivesOf(steps, id) + PotentialFor(After(steps).inflight, id)
      <= FanoutOf(After(steps), id) * Weight(DEFAULT_TTL)
    decreases |steps|
  {
    hide Weight, Apply, PotentialFor;
    if steps == [] {
      NothingInFlight(id);
    } else {
      var front, last := steps[..|steps| - 1], steps[|steps| - 1];
      var s, t := After(front), After(steps);
      ReceivesOfBounded(front, id);
      StepIsPaidFor(s, last, id);
      Distribute(FanoutOf(s, id), FanoutOf(t, id) - FanoutOf(s, id), Weight(DEFAULT_TTL));
    }
  }

  /** Over every run, however many other messages are under way, the copies of one
      message are handled at most 88573 times for each of its first hops, and what
      is still in flight is paid for within the same bound. */
  lemma {:induction false} SendTerminates(steps: seq<Step>, id: string)
    requires IsRun(steps)
    ensures ReceivesOf(steps, id) + PotentialFor(After(steps).inflight, id) <= FanoutOf(After(steps), id) * 88573
    ensures id !in After(steps).origins ==> ReceivesOf(steps, id) == 0
  {
    ReceivesOfBounded(steps, id);
    assert Weight(2) == 13 && Weight(4) == 121 && Weight(6) == 1093 && Weight(8) == 9841;
    assert Weight(DEFAULT_TTL) == 88573;
  }

  // ----- Deduplication -----

  /** Nothing but the handlers touches the seen maps: each handler runs as one
      atomic step. */
  predicate Undisturbed(steps: seq<Step>) {
    forall i :: 0 <= i < |steps| ==> !steps[i].Interferes?
  }

  ghost predicate Remembered(s: State, p: Processing) {
    Remembers(SeenBy(s, p.node), s.clock, p)
  }

  ghost predicate Deduplicates(s: State) {
    FarApart(s.log) && forall i :: 0 <= i < |s.log| ==> Remembered(s, s.log[i])
  }

  /** A processed message was not seen within the window and is marked now; any
      other handling leaves the seen map alone. */
  lemma HandleMarks(us: NodeId, seen: SeenMap, m: MeshMessage, now: nat, peers: seq<PeerInfo>, score: Score,
      open: set<NodeId>)
    ensures var h := Handle(us, seen, m, now, peers, score, open);
      if h.processed
      then h.seen == Marked(seen, m.messageId, now)
        && (m.messageId in seen ==> now - seen[m.messageId] >= DEDUP_WINDOW_MS)
      else h.seen == seen
  {
  }

  lemma ReceiveDeduplicates(s: State, step: Step)
    requires Enabled(s, step) && step.Receives? && Deduplicates(s)
    ensures Deduplicates(Apply(s, step))
  {
    hide Handle, Hops, Launch, Without, Marked;
    var t := Apply(s, step);
    var c, h := s.inflight[step.index], HandledBy(s, step);
    HandleMarks(c.receiver, SeenBy(s, c.receiver), c.msg, s.clock, step.peers, step.score, step.open);
    forall i | 0 <= i < |s.log|
      ensures Remembered(t, s.log[i])
      ensures h.processed && s.log[i].node == c.receiver && s.log[i].id == c.msg.messageId ==>
        s.clock - s.log[i].time >= DEDUP_WINDOW_MS
    {
      assert Remembered(s, s.log[i]);
    }
  }

  lemma OtherStepsDeduplicate(s: State, step: Step)
    requires Enabled(s, step) && !step.Interferes? && !step.Receives? && Deduplicates(s)
    ensures Deduplicates(Apply(s, step))
  {
    hide Hops, Launch, Without, Originate;
    var t := Apply(s, step);
    forall i | 0 <= i < |s.log| ensures Remembered(t, s.log[i]) {
      assert Remembered(s, s.log[i]);
    }
  }

  /** Over every run with atomic handlers, one node processes the same message id
      only at times at least a minute apart: the cleanup after five minutes never
      drops an entry the one-minute check still needs. */
  lemma {:induction false} ProcessingsAreFarApart(steps: seq<Step>)
    requires IsRun(steps) && Undisturbed(steps)
    ensures Deduplicates(After(steps))
    decreases |steps|
  {
    if steps != [] {
      ProcessingsAreFarApart(steps[..|steps| - 1]);
      var s, step := After(steps[..|steps| - 1]), steps[|steps| - 1];
      if step.Receives? {
        ReceiveDeduplicates(s, step);
      } else {
        OtherStepsDeduplicate(s, step);
      }
    }
  }

  // ----- Copies per message within the window -----

  /** The nodes that processed `id`, in order. */
  function Processors(log: seq<Processing>, id: string): (r: seq<NodeId>)
    ensures forall x :: x in r ==> exists i :: 0 <= i < |log| && log[i].id == id && log[i].node == x
  {
    if log == [] then [] else
      var rest := Processors(log[..|log| - 1], id);
      if log[|log| - 1].id == id then rest + [log[|log| - 1].node] else rest
  }

  /** Copies made for `id`: its first hops and three per processing. */
  ghost predicate CopiesPaidFor(s: State) {
    && (forall id :: id in s.origins ==>
          CreatedFor(s, id) <= s.origins[id].fanout + MAX_FORWARD_PEERS * |Processors(s.log, id)|)
    && (forall id :: id !in s.origins ==> CreatedFor(s, id) == 0 && Processors(s.log, id) == [])
  }

  /** Processed ids were originated, and never by the node that processed them. */
  ghost predicate LogIsForeign(s: State) {
    forall i :: 0 <= i < |s.log| ==> s.log[i].id in s.origins && s.origins[s.log[i].id].from != s.log[i].node
  }

  lemma {:induction false} ProcessorsSnoc(log: seq<Processing>, p: Processing, id: string)
    ensures Processors(log + [p], id) == Processors(log, id) + if p.id == id then [p.node] else []
  {
    assert (log + [p])[..|log|] == log;
  }

  lemma ReceivePaysForCopies(s: State, step: Step)
    requires Enabled(s, step) && step.Receives? && AllGood(s) && CopiesPaidFor(s) && LogIsForeign(s)
    ensures CopiesPaidFor(Apply(s, step)) && LogIsForeign(Apply(s, step))
  {
    hide Handle, Hops, Processors;
    var t := Apply(s, step);
    var c, h := s.inflight[step.index], HandledBy(s, step);
    assert GoodCopy(s, c);
    HandleSends(c.receiver, SeenBy(s, c.receiver), c.msg, s.clock, step.peers, step.score, step.open);
    if h.processed {
      forall id
        ensures Processors(t.log, id) == Processors(s.log, id) + if c.msg.messageId == id then [c.receiver] else []
      {
        ProcessorsSnoc(s.log, Processing(c.receiver, c.msg.messageId, s.clock), id);
      }
    }
  }

  lemma OtherStepsPayForCopies(s: State, step: Step)
    requires Enabled(s, step) && !step.Receives? && CopiesPaidFor(s) && LogIsForeign(s)
    ensures CopiesPaidFor(Apply(s, step)) && LogIsForeign(Apply(s, step))
  {
    hide Hops, Processors, Originate;
  }

  lemma {:induction false} CopiesArePaidFor(steps: seq<Step>)
    requires IsRun(steps)
    ensures CopiesPaidFor(After(steps)) && LogIsForeign(After(steps))
    decreases |steps|
  {
    if steps != [] {
      CopiesArePaidFor(steps[..|steps| - 1]);
      CopiesStayGood(steps[..|steps| - 1]);
      var s, step := After(steps[..|steps| - 1]), steps[|steps| - 1];
      if step.Receives? {
        ReceivePaysForCopies(s, step);
      } else {
        OtherStepsPayForCopies(s, step);
      }
    }
  }

  /** Less than a minute lies between any two processings of `id`. */
  predicate WithinTheWindow(log: seq<Processing>, id: string) {
    forall i, k :: 0 <= i < k < |log| && log[i].id == id && log[k].id == id ==>
      log[k].time - log[i].time < DEDUP_WINDOW_MS
  }

  lemma {:induction false} ProcessorsDistinct(log: seq<Processing>, id: string)
    requires FarApart(log)
    requires WithinTheWindow(log, id)
    ensures Distinct(Processors(log, id))
  {
    if log != [] {
      var front, last := log[..|log| - 1], log[|log| - 1];
      ProcessorsDistinct(front, id);
      if last.id == id {
        forall x | x in Processors(front, id) ensures x != last.node {
          var i :| 0 <= i < |front| && front[i].id == id && front[i].node == x;
          assert log[i] == front[i];
        }
        var r := Processors(log, id);
        assert r == Processors(front, id) + [last.node];
        forall i, k | 0 <= i < k < |r| ensures r[i] != r[k] {
          if k == |r| - 1 {
            assert r[i] in Processors(front, id);
          }
        }
      }
    }
  }

  /** While less than a minute lies between any two of its processings, a message
      is processed at most once by each node, never by its originator, and causes
      at most its first hops plus three copies for each other node. */
  lemma {:induction false} CopiesWithinTheWindow(steps: seq<Step>, id: string, nodes: set<NodeId>)
    requires IsRun(steps) && Undisturbed(steps) && id in After(steps).origins
    requires var s := After(steps);
      && s.origins[id].from in nodes
      && forall i :: 0 <= i < |s.log| && s.log[i].id == id ==> s.log[i].node in nodes
    requires After(steps).clock < DEDUP_WINDOW_MS || WithinTheWindow(After(steps).log, id)
    ensures var s := After(steps);
      && Distinct(Processors(s.log, id)) && s.origins[id].from !in Processors(s.log, id)
      && |Processors(s.log, id)| <= |nodes| - 1
      && CreatedFor(s, id) <= s.origins[id].fanout + MAX_FORWARD_PEERS * (|nodes| - 1)
  {
    var s := After(steps);
    ProcessingsAreFarApart(steps);
    CopiesArePaidFor(steps);
    assert forall i :: 0 <= i < |s.log| ==> Remembered(s, s.log[i]);
    ProcessorsDistinct(s.log, id);
    var others := nodes - {s.origins[id].from};
    var seen := set x | x in Processors(s.log, id);
    DistinctSize(Processors(s.log, id));
    SubsetSize(seen, others);
  }
}
