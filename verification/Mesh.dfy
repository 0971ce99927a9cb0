/** The whole mesh as a step system: nodes running the handler, copies in flight,
    and a clock. One step originates a message, handles a copy, loses one, or lets
    time pass; a node's peers may differ at every step. */
module Mesh {
  import opened Bytes
  import opened Finite
  import opened Options
  import opened Router

  datatype Copy = Copy(msg: MeshMessage, sender: NodeId, receiver: NodeId)

  /** What was originally sent under a message id, and to how many first hops. */
  datatype Origin = Origin(from: NodeId, to: Option<NodeId>, data: Octets, fanout: nat)

  /** `seen` to `clock` are the state proper; `origins` to `log` record the past. */
  datatype State = State(
    seen: map<NodeId, SeenMap>,
    inflight: seq<Copy>,
    clock: nat,
    origins: map<string, Origin>,
    links: set<(NodeId, NodeId)>,
    created: map<string, nat>,
    log: seq<Processing>)

  datatype Step =
    | Originates(node: NodeId, to: Option<NodeId>, data: Octets, id: string, active: seq<NodeId>)
    | Receives(index: nat, peers: seq<PeerInfo>, score: Score, open: set<NodeId>)
    | Loses(index: nat)
    | Waits(duration: nat)
    | Interferes(node: NodeId, other: SeenMap)

  const Quiet := State(map[], [], 0, map[], {}, map[], [])

  function SeenBy(s: State, node: NodeId): SeenMap {
    if node in s.seen then s.seen[node] else map[]
  }

  function CreatedFor(s: State, id: string): nat {
    if id in s.created then s.created[id] else 0
  }

  /** What a step demands of its environment: fresh ids, and peer lists without
      repetition or the node itself. */
  ghost predicate Enabled(s: State, step: Step) {
    match step
    case Originates(node, to, data, id, active) =>
      id !in s.origins && node !in active && Distinct(active) && Originate(node, to, data, id, active).Sent?
    case Receives(index, peers, _, _) => index < |s.inflight| && ValidPeers(s.inflight[index].receiver, peers)
    case Loses(index) => index < |s.inflight|
    case Waits(_) => true
    case Interferes(_, _) => true
  }

  function Launch(sends: seq<Send>, sender: NodeId): (r: seq<Copy>)
    ensures |r| == |sends|
    ensures forall i :: 0 <= i < |r| ==> r[i] == Copy(sends[i].msg, sender, sends[i].to)
  {
    seq(|sends|, i requires 0 <= i < |sends| => Copy(sends[i].msg, sender, sends[i].to))
  }

  function Hops(copies: seq<Copy>): (r: set<(NodeId, NodeId)>)
    ensures forall i :: 0 <= i < |copies| ==> (copies[i].sender, copies[i].receiver) in r
  {
    set i | 0 <= i < |copies| :: (copies[i].sender, copies[i].receiver)
  }

  function Without(copies: seq<Copy>, index: nat): (r: seq<Copy>)
    requires index < |copies|
    ensures |r| == |copies| - 1
  {
    copies[..index] + copies[index + 1..]
  }

  function HandledBy(s: State, step: Step): Handled
    requires step.Receives? && step.index < |s.inflight|
  {
    var c := s.inflight[step.index];
    Handle(c.receiver, SeenBy(s, c.receiver), c.msg, s.clock, step.peers, step.score, step.open)
  }

  ghost function Apply(s: State, step: Step): State
    requires Enabled(s, step)
  {
    match step
    case Originates(node, to, data, id, active) =>
      var copies := Launch(Originate(node, to, data, id, active).copies, node);
      s.(inflight := s.inflight + copies,
         origins := s.origins[id := Origin(node, to, data, |copies|)],
         links := s.links + Hops(copies),
         created := s.created[id := CreatedFor(s, id) + |copies|])
    case Receives(index, _, _, _) =>
      var c, h := s.inflight[index], HandledBy(s, step);
      var copies := Launch(h.sends, c.receiver);
      s.(seen := s.seen[c.receiver := h.seen],
         inflight := Without(s.inflight, index) + copies,
         links := s.links + Hops(copies),
         created := s.created[c.msg.messageId := CreatedFor(s, c.msg.messageId) + |copies|],
         log := if h.processed then s.log + [Processing(c.receiver, c.msg.messageId, s.clock)] else s.log)
    case Loses(index) => s.(inflight := Without(s.inflight, index))
    case Waits(duration) => s.(clock := s.clock + duration)
    case Interferes(node, other) => s.(seen := s.seen[node := other])
  }

  /** A run from the quiet state: the steps it takes, each enabled in turn. */
  ghost predicate IsRun(steps: seq<Step>)
    decreases |steps|, 0
  {
    steps == [] || (IsRun(steps[..|steps| - 1]) && Enabled(After(steps[..|steps| - 1]), steps[|steps| - 1]))
  }

  ghost function After(steps: seq<Step>): State
    requires IsRun(steps)
    decreases |steps|, 1
  {
    if steps == [] then Quiet else Apply(After(steps[..|steps| - 1]), steps[|steps| - 1])
  }

  // ----- What every in-flight copy satisfies -----

  /** The path follows links that were used, from the originator to the sender. */
  ghost predicate Trail(links: set<(NodeId, NodeId)>, from: NodeId, path: seq<NodeId>, sender: NodeId) {
    && sender == (if path == [] then from else path[|path| - 1])
    && (path != [] ==> (from, path[0]) in links)
    && (forall i :: 0 <= i < |path| - 1 ==> (path[i], path[i + 1]) in links)
  }

  ghost predicate GoodCopy(s: State, c: Copy) {
    && c.msg.ttl + |c.msg.path| == DEFAULT_TTL
    && Distinct(c.msg.path)
    && c.msg.from !in c.msg.path && c.receiver !in c.msg.path && c.receiver != c.msg.from
    && c.msg.messageId in s.origins
    && (var o := s.origins[c.msg.messageId]; o.from == c.msg.from && o.to == c.msg.to && o.data == c.msg.data)
    && (c.sender, c.receiver) in s.links && Trail(s.links, c.msg.from, c.msg.path, c.sender)
    && (c.msg.to.Some? ==> c.msg.path == [] && c.msg.to.value == c.receiver)
  }

  ghost predicate AllGood(s: State) {
    forall i :: 0 <= i < |s.inflight| ==> GoodCopy(s, s.inflight[i])
  }

  /** Growing the records of the past keeps a copy good. */
  lemma StaysGood(s: State, t: State, c: Copy)
    requires GoodCopy(s, c) && s.links <= t.links
    requires c.msg.messageId in t.origins && t.origins[c.msg.messageId] == s.origins[c.msg.messageId]
    ensures GoodCopy(t, c)
  {
  }

  lemma OriginatedIsGood(s: State, step: Step, i: nat)
    requires step.Originates? && Enabled(s, step)
    requires i < |Originate(step.node, step.to, step.data, step.id, step.active).copies|
    ensures GoodCopy(Apply(s, step),
              Launch(Originate(step.node, step.to, step.data, step.id, step.active).copies, step.node)[i])
  {
    hide Hops;
    var sends := Originate(step.node, step.to, step.data, step.id, step.active).copies;
    var c := Launch(sends, step.node)[i];
    assert c.receiver in step.active;
    assert (c.sender, c.receiver) in Hops(Launch(sends, step.node));
  }

  lemma ForwardedIsGood(s: State, step: Step, i: nat)
    requires step.Receives? && Enabled(s, step) && GoodCopy(s, s.inflight[step.index])
    requires i < |HandledBy(s, step).sends|
    ensures GoodCopy(Apply(s, step), Launch(HandledBy(s, step).sends, s.inflight[step.index].receiver)[i])
  {
    hide Hops, Handle;
    var c, h := s.inflight[step.index], HandledBy(s, step);
    HandleSends(c.receiver, SeenBy(s, c.receiver), c.msg, s.clock, step.peers, step.score, step.open);
    assert h.sends != [];
    var d := Launch(h.sends, c.receiver)[i];
    assert d.msg == c.msg.(ttl := c.msg.ttl - 1, path := c.msg.path + [c.receiver]);
    assert (d.sender, d.receiver) in Hops(Launch(h.sends, c.receiver));
    var links := Apply(s, step).links;
    assert s.links <= links;
    forall k | 0 <= k < |d.msg.path| - 1 ensures (d.msg.path[k], d.msg.path[k + 1]) in links {
      if k == |c.msg.path| - 1 {
        assert d.msg.path[k] == c.sender && d.msg.path[k + 1] == c.receiver;
      }
    }
  }

  lemma StepKeepsGood(s: State, step: Step)
    requires AllGood(s) && Enabled(s, step)
    ensures AllGood(Apply(s, step))
  {
    hide Hops, Handle, GoodCopy, Launch, HandledBy;
    var t := Apply(s, step);
    match step
    case Originates(node, to, data, id, active) =>
      var copies := Launch(Originate(node, to, data, id, active).copies, node);
      forall i | 0 <= i < |t.inflight| ensures GoodCopy(t, t.inflight[i]) {
        if i < |s.inflight| {
          OriginIsKept(s, step, s.inflight[i]);
        } else {
          OriginatedIsGood(s, step, i - |s.inflight|);
        }
      }
    case Receives(index, _, _, _) =>
      forall i | 0 <= i < |t.inflight| ensures GoodCopy(t, t.inflight[i]) {
        if i < |s.inflight| - 1 {
          OriginIsKept(s, step, s.inflight[if i < index then i else i + 1]);
        } else {
          ForwardedIsGood(s, step, i - (|s.inflight| - 1));
        }
      }
    case Loses(index) =>
      forall i | 0 <= i < |t.inflight| ensures GoodCopy(t, t.inflight[i]) {
        OriginIsKept(s, step, s.inflight[if i < index then i else i + 1]);
      }
    case Waits(_) =>
      forall i | 0 <= i < |t.inflight| ensures GoodCopy(t, t.inflight[i]) {
        OriginIsKept(s, step, s.inflight[i]);
      }
    case Interferes(_, _) =>
      forall i | 0 <= i < |t.inflight| ensures GoodCopy(t, t.inflight[i]) {
        OriginIsKept(s, step, s.inflight[i]);
      }
  }

  lemma OriginIsKept(s: State, step: Step, c: Copy)
    requires Enabled(s, step) && GoodCopy(s, c)
    ensures GoodCopy(Apply(s, step), c)
  {
    hide Hops, Handle, HandledBy;
    StaysGood(s, Apply(s, step), c);
  }

  /** In every reachable state, whatever else happens to the seen maps, every
      in-flight copy is good. */
  lemma {:induction false} CopiesStayGood(steps: seq<Step>)
    requires IsRun(steps)
    ensures AllGood(After(steps))
    decreases |steps|
  {
    if steps != [] {
      CopiesStayGood(steps[..|steps| - 1]);
      StepKeepsGood(After(steps[..|steps| - 1]), steps[|steps| - 1]);
    }
  }

  /** So the loop check never rejects a copy, no originator is handed its own
      message, and a directed message is only ever handed to its recipient. */
  lemma {:induction false} LoopCheckNeverFires(steps: seq<Step>, i: nat)
    requires IsRun(steps) && i < |After(steps).inflight|
    ensures var c := After(steps).inflight[i];
      && c.receiver !in c.msg.path && c.receiver != c.msg.from
      && (c.msg.to.Some? ==> c.receiver == c.msg.to.value)
      && (Accepts(c.receiver, SeenBy(After(steps), c.receiver), c.msg, After(steps).clock) <==>
            c.msg.ttl != 0 && !(c.msg.messageId in SeenBy(After(steps), c.receiver)
              && After(steps).clock - SeenBy(After(steps), c.receiver)[c.msg.messageId] < DEDUP_WINDOW_MS))
  {
    CopiesStayGood(steps);
    assert GoodCopy(After(steps), After(steps).inflight[i]);
  }

  /** What a recipient is shown of a message, whatever route it took: its
      originator and exactly the payload that was sent. */
  lemma {:induction false} RecordShowsWhatWasSent(steps: seq<Step>, i: nat, codec: Codec, payload: Octets)
    requires IsRun(steps) && i < |After(steps).inflight|
    requires forall p :: codec.decode(codec.encode(p)) == Some(p)
    requires var s := After(steps); var m := s.inflight[i].msg;
      m.messageId in s.origins ==>
        var o := s.origins[m.messageId]; o.data == codec.encode(PacketOf(o.from, o.to, payload))
    ensures var s := After(steps); var c := s.inflight[i];
      && c.msg.messageId in s.origins
      && var o := s.origins[c.msg.messageId];
        var address := if o.to.None? then None else Some("mur://" + o.to.value);
        Delivered(codec, c.msg, c.sender) ==
          Record(true, c.sender, o.from, address, c.msg.messageId, codec.text(payload))
  {
    CopiesStayGood(steps);
    assert GoodCopy(After(steps), After(steps).inflight[i]);
  }

  /** Sending puts a copy in flight from the sender to every peer it is meant for,
      and none to anybody else. */
  lemma EveryPeerIsSentACopy(s: State, step: Step, p: NodeId)
    requires Enabled(s, step) && step.Originates?
    ensures p in step.active && (step.to == None || step.to == Some(p)) <==>
      exists i :: |s.inflight| <= i < |Apply(s, step).inflight| &&
        Apply(s, step).inflight[i] ==
          Copy(MeshMessage(step.node, step.to, step.data, step.id, 10, []), step.node, p)
  {
    hide Hops;
    OriginateMeaning(step.node, step.to, step.data, step.id, step.active);
    var sends := Originate(step.node, step.to, step.data, step.id, step.active).copies;
    var t := Apply(s, step);
    assert t.inflight == s.inflight + Launch(sends, step.node);
    if p in step.active && (step.to == None || step.to == Some(p)) {
      var i :| 0 <= i < |sends| && sends[i].to == p;
      assert t.inflight[|s.inflight| + i] == Launch(sends, step.node)[i];
    }
    var copy := Copy(MeshMessage(step.node, step.to, step.data, step.id, 10, []), step.node, p);
    if i :| |s.inflight| <= i < |t.inflight| && t.inflight[i] == copy {
      assert Launch(sends, step.node)[i - |s.inflight|] == t.inflight[i];
      assert sends[i - |s.inflight|].to == p;
    }
  }
}
