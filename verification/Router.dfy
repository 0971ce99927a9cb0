/** The mesh router of one node: deduplication, forwarding and peer selection,
    and the handler for an incoming mesh message. Times are milliseconds. */
module Router {
  import opened Bytes
  import opened Finite
  import opened Options
  import opened Orders

  type NodeId = string

  datatype MeshMessage = MeshMessage(
    from: NodeId,
    to: Option<NodeId>,
    data: Octets,
    messageId: string,
    ttl: nat,
    path: seq<NodeId>)

  const DEFAULT_TTL: nat := 10
  const MAX_FORWARD_PEERS: nat := 3
  const DEDUP_WINDOW_MS := 60_000
  const RETENTION_MS := 300_000

  type SeenMap = map<string, nat>

  /** The message would be processed: it is not expired, not a recent duplicate,
      and has not been through this node. */
  predicate Accepts(us: NodeId, seen: SeenMap, m: MeshMessage, now: nat) {
    && m.ttl != 0
    && !(m.messageId in seen && now - seen[m.messageId] < DEDUP_WINDOW_MS)
    && us !in m.path
  }

  /** The seen map after marking `id` and cleaning up. */
  function Marked(seen: SeenMap, id: string, now: nat): (r: SeenMap)
    ensures id in r && r[id] == now
    ensures forall k :: k in r ==> now - r[k] < RETENTION_MS && (k == id || (k in seen && r[k] == seen[k]))
    ensures forall k :: k in seen && now - seen[k] < RETENTION_MS ==> k in r
  {
    var marked := seen[id := now];
    map k | k in marked && now - marked[k] < RETENTION_MS :: marked[k]
  }

  predicate IsForUs(us: NodeId, m: MeshMessage) {
    m.to.None? || m.to.value == us
  }

  function Forwarded(us: NodeId, m: MeshMessage): MeshMessage {
    m.(ttl := if m.ttl == 0 then 0 else m.ttl - 1, path := m.path + [us])
  }

  // ----- Deduplication over time -----

  /** One processing of a message by a node. */
  datatype Processing = Processing(node: NodeId, id: string, time: nat)

  /** A node processes one id only at times at least the window apart. */
  predicate FarApart(log: seq<Processing>) {
    forall i, k :: 0 <= i < k < |log| && log[i].node == log[k].node && log[i].id == log[k].id ==>
      log[k].time - log[i].time >= DEDUP_WINDOW_MS
  }

  /** A seen map still shows the processing `p` at the time `now`, or has had no need
      to for longer than entries are retained. */
  predicate Remembers(seen: SeenMap, now: nat, p: Processing) {
    && p.time <= now
    && ((p.id in seen && p.time <= seen[p.id] <= now) || now - p.time >= RETENTION_MS)
  }

  // ----- Peer selection -----

  datatype PeerInfo = PeerInfo(nodeId: NodeId, connected: bool)

  /** Peers that may be sent `m`: connected, not its originator, not on its path. */
  function Eligible(m: MeshMessage, peers: seq<PeerInfo>): (r: seq<NodeId>)
    ensures forall x :: x in r <==>
      x != m.from && x !in m.path && exists i :: 0 <= i < |peers| && peers[i] == PeerInfo(x, true)
  {
    if peers == [] then [] else
      var last := peers[|peers| - 1];
      var rest := Eligible(m, peers[..|peers| - 1]);
      if last.nodeId != m.from && last.nodeId !in m.path && last.connected then rest + [last.nodeId] else rest
  }

  type Score = NodeId -> real

  predicate Descending(ids: seq<NodeId>, score: Score) {
    forall i, k :: 0 <= i < k < |ids| ==> score(ids[i]) >= score(ids[k])
  }

  function Falling(score: Score): Score {
    (id: NodeId) => -score(id)
  }

  /** The stable sort by falling score. */
  function SortByScore(ids: seq<NodeId>, score: Score): (r: seq<NodeId>)
    ensures |r| == |ids|
  {
    SortedSize(ids, Falling(score));
    Sort(ids, Falling(score))
  }

  lemma SortedByScore(ids: seq<NodeId>, score: Score)
    ensures Descending(SortByScore(ids, score), score)
    ensures multiset(SortByScore(ids, score)) == multiset(ids)
  {
    SortSorts(ids, Falling(score));
    assert Ascending(SortByScore(ids, score), Falling(score));
  }

  /** The shape shared by the three selectors: filter, score, sort, take. */
  function SelectPeers(m: MeshMessage, peers: seq<PeerInfo>, score: Score, max: nat): (r: seq<NodeId>)
    ensures |r| == if |Eligible(m, peers)| < max then |Eligible(m, peers)| else max
  {
    Take(SortByScore(Eligible(m, peers), score), max)
  }

  function Take<T>(s: seq<T>, max: nat): (r: seq<T>)
    ensures r <= s && |r| == if |s| < max then |s| else max
  {
    if |s| < max then s else s[..max]
  }

  /** No node is a peer of itself, and no peer is listed twice. */
  predicate ValidPeers(us: NodeId, peers: seq<PeerInfo>) {
    && (forall i :: 0 <= i < |peers| ==> peers[i].nodeId != us)
    && (forall i, k :: 0 <= i < k < |peers| ==> peers[i].nodeId != peers[k].nodeId)
  }

  lemma {:induction false} EligibleDistinct(us: NodeId, m: MeshMessage, peers: seq<PeerInfo>)
    requires ValidPeers(us, peers)
    ensures Distinct(Eligible(m, peers))
  {
    if peers != [] {
      EligibleDistinct(us, m, peers[..|peers| - 1]);
    }
  }

  lemma DistinctByMultiset(s: seq<NodeId>, t: seq<NodeId>)
    requires multiset(s) == multiset(t) && Distinct(t)
    ensures Distinct(s)
  {
    DistinctCounts(t);
    forall i, k | 0 <= i < k < |s| ensures s[i] != s[k] {
      TwiceCounts(s, i, k);
    }
  }

  lemma {:induction false} DistinctCounts(t: seq<NodeId>)
    requires Distinct(t)
    ensures forall x :: multiset(t)[x] <= 1
  {
    if t != [] {
      var front, last := t[..|t| - 1], t[|t| - 1];
      assert t == front + [last];
      DistinctCounts(front);
      assert last !in front;
    }
  }

  lemma TwiceCounts(s: seq<NodeId>, i: nat, k: nat)
    requires i < k < |s|
    ensures s[i] == s[k] ==> multiset(s)[s[i]] >= 2
  {
    assert s == s[..k] + s[k..];
    assert s[i] in s[..k] && s[k] in s[k..];
  }

  /** Nothing behind a prefix of a descending list outscores the prefix. */
  lemma PrefixScoresBest(sorted: seq<NodeId>, score: Score, r: seq<NodeId>, x: NodeId, y: NodeId)
    requires Descending(sorted, score) && r <= sorted && x in r && y in sorted && y !in r
    ensures score(y) <= score(x)
  {
    var i :| 0 <= i < |r| && r[i] == x;
    var k :| 0 <= k < |sorted| && sorted[k] == y;
    assert sorted[i] == x;
    assert forall j :: 0 <= j < |r| ==> r[j] == sorted[j];
    assert k >= |r|;
  }

  /** What a selection is: distinct eligible peers, as many as allowed, none of
      which is outscored by an eligible peer left out. */
  lemma {:induction false} SelectionIsBest(us: NodeId, m: MeshMessage, peers: seq<PeerInfo>, score: Score, max: nat)
    requires ValidPeers(us, peers)
    ensures var r := SelectPeers(m, peers, score, max);
      && Distinct(r)
      && (forall x :: x in r ==> x in Eligible(m, peers) && x != us)
      && (forall x, y :: x in r && y in Eligible(m, peers) && y !in r ==> score(y) <= score(x))
      && (|r| < max ==> forall y :: y in Eligible(m, peers) ==> y in r)
  {
    hide SortByScore, Descending;
    var eligible := Eligible(m, peers);
    var sorted := SortByScore(eligible, score);
    var r := SelectPeers(m, peers, score, max);
    SortedByScore(eligible, score);
    EligibleDistinct(us, m, peers);
    DistinctByMultiset(sorted, eligible);
    forall x ensures x in sorted <==> x in eligible {
      assert x in multiset(sorted) <==> x in multiset(eligible);
    }
    forall x, y | x in r && y in eligible && y !in r ensures score(y) <= score(x) {
      PrefixScoresBest(sorted, score, r, x, y);
    }
  }

  // ----- The handler -----

  datatype Send = Send(to: NodeId, msg: MeshMessage)

  datatype Handled = Handled(seen: SeenMap, processed: bool, delivered: bool, sends: seq<Send>)

  /** One copy of `m` for each peer in `ids` that has an open channel. */
  function SendsTo(ids: seq<NodeId>, open: set<NodeId>, m: MeshMessage): (r: seq<Send>)
    ensures |r| <= |ids|
    ensures forall i :: 0 <= i < |r| ==> r[i].to in ids && r[i].to in open && r[i].msg == m
  {
    if ids == [] then [] else
      var rest := SendsTo(ids[..|ids| - 1], open, m);
      if ids[|ids| - 1] in open then rest + [Send(ids[|ids| - 1], m)] else rest
  }

  /** What node `us` does with an incoming message. */
  function Handle(us: NodeId, seen: SeenMap, m: MeshMessage, now: nat, peers: seq<PeerInfo>, score: Score,
      open: set<NodeId>): Handled {
    if !Accepts(us, seen, m, now) then Handled(seen, false, false, [])
    else if IsForUs(us, m) && m.to.Some? then Handled(Marked(seen, m.messageId, now), true, true, [])
    else Handled(Marked(seen, m.messageId, now), true, m.to.None?,
                 SendsTo(SelectPeers(m, peers, score, MAX_FORWARD_PEERS), open, Forwarded(us, m)))
  }

  /** The copies a node hands out are those it may hand out: each goes to an
      eligible peer with the hop count lowered and this node added to the path. */
  lemma HandleSends(us: NodeId, seen: SeenMap, m: MeshMessage, now: nat, peers: seq<PeerInfo>, score: Score,
      open: set<NodeId>)
    requires ValidPeers(us, peers)
    ensures var h := Handle(us, seen, m, now, peers, score, open);
      && |h.sends| <= MAX_FORWARD_PEERS
      && (h.sends != [] ==> m.ttl > 0 && us !in m.path && h.processed && m.to != Some(us))
      && forall i :: 0 <= i < |h.sends| ==>
           && h.sends[i].msg == m.(ttl := m.ttl - 1, path := m.path + [us])
           && h.sends[i].to != us && h.sends[i].to != m.from && h.sends[i].to !in m.path
           && exists k :: 0 <= k < |peers| && peers[k] == PeerInfo(h.sends[i].to, true)
  {
    SelectionIsBest(us, m, peers, score, MAX_FORWARD_PEERS);
  }

  lemma {:induction false} SendsToExactly(ids: seq<NodeId>, open: set<NodeId>, m: MeshMessage, x: NodeId)
    ensures Send(x, m) in SendsTo(ids, open, m) <==> x in ids && x in open
  {
    if ids != [] {
      assert ids == ids[..|ids| - 1] + [ids[|ids| - 1]];
      SendsToExactly(ids[..|ids| - 1], open, m, x);
    }
  }

  /** What handling means: a message is processed exactly when it is live, not a
      recent duplicate and not looping; it is delivered exactly when it is then
      for this node; and a peer is sent a copy exactly when the message may still
      travel and the peer was selected and can be reached. */
  lemma HandleMeaning(us: NodeId, seen: SeenMap, m: MeshMessage, now: nat, peers: seq<PeerInfo>, score: Score,
      open: set<NodeId>, x: NodeId)
    ensures var h := Handle(us, seen, m, now, peers, score, open);
      && (h.processed <==> (m.ttl > 0 && us !in m.path
            && (m.messageId !in seen || now >= seen[m.messageId] + DEDUP_WINDOW_MS)))
      && (h.delivered <==> h.processed && (m.to == None || m.to == Some(us)))
      && (Send(x, Forwarded(us, m)) in h.sends <==>
            h.processed && m.to != Some(us) && x in open && x in SelectPeers(m, peers, score, MAX_FORWARD_PEERS))
  {
    SendsToExactly(SelectPeers(m, peers, score, MAX_FORWARD_PEERS), open, Forwarded(us, m), x);
  }

  // ----- Originating a message -----

  datatype SendResult = Sent(copies: seq<Send>) | NotConnected

  /** A directed message goes only to a directly connected recipient; a broadcast
      goes to every active peer. */
  function Originate(us: NodeId, to: Option<NodeId>, data: Octets, id: string, active: seq<NodeId>): SendResult {
    var m := MeshMessage(us, to, data, id, DEFAULT_TTL, []);
    if active == [] then NotConnected
    else match to
      case None => Sent(seq(|active|, i requires 0 <= i < |active| => Send(active[i], m)))
      case Some(target) => if target in active then Sent([Send(target, m)]) else NotConnected
  }

  /** Sending fails exactly when nobody is active or the recipient is not; otherwise
      a copy goes to a peer exactly when the peer is active and the message is for
      everyone or for that peer, one copy each, all fresh and alike. */
  lemma OriginateMeaning(us: NodeId, to: Option<NodeId>, data: Octets, id: string, active: seq<NodeId>)
    requires Distinct(active)
    ensures var r := Originate(us, to, data, id, active);
      && (r.NotConnected? <==> active == [] || (to.Some? && to.value !in active))
      && (r.Sent? ==>
            && (forall p :: (exists i :: 0 <= i < |r.copies| && r.copies[i].to == p) <==>
                  p in active && (to == None || to == Some(p)))
            && (forall i, k :: 0 <= i < k < |r.copies| ==> r.copies[i].to != r.copies[k].to)
            && |r.copies| == (if to.None? then |active| else 1)
            && forall i :: 0 <= i < |r.copies| ==> r.copies[i].msg == MeshMessage(us, to, data, id, 10, []))
  {
    var r := Originate(us, to, data, id, active);
    if r.Sent? {
      forall p
        ensures (exists i :: 0 <= i < |r.copies| && r.copies[i].to == p) <==>
          p in active && (to == None || to == Some(p))
      {
        if p in active && to.None? {
          var i :| 0 <= i < |active| && active[i] == p;
          assert r.copies[i].to == p;
        } else if to == Some(p) && p in active {
          assert r.copies[0].to == p;
        }
      }
    }
  }

  // ----- What the application sees -----

  /** The packet inside a mesh message. */
  datatype Packet = Packet(src: NodeId, dst: Option<string>, payload: Octets)

  /** How packets are written and read, and how a payload is shown. */
  datatype Codec = Codec(encode: Packet -> Octets, decode: Octets -> Option<Packet>, text: Octets -> string)

  /** An inbox record of a delivered or sent mesh message. */
  datatype Record = Record(
    incoming: bool,
    peer: NodeId,
    from: NodeId,
    to: Option<string>,
    messageId: string,
    content: string)

  function Address(to: Option<NodeId>): Option<string> {
    match to case None => None case Some(id) => Some("mur://" + id)
  }

  function PacketOf(us: NodeId, to: Option<NodeId>, payload: Octets): Packet {
    Packet(us, Address(to), payload)
  }

  /** The record of an incoming message: what its packet says, or, of data that is
      no packet, what the message and the neighbour it came from say. */
  function Delivered(codec: Codec, m: MeshMessage, fromPeer: NodeId): Record {
    match codec.decode(m.data)
    case Some(p) => Record(true, fromPeer, p.src, p.dst, m.messageId, codec.text(p.payload))
    case None => Record(true, fromPeer, fromPeer, m.to, m.messageId, codec.text(m.data))
  }

  function SentRecord(codec: Codec, us: NodeId, to: Option<NodeId>, payload: Octets, id: string): Record {
    Record(false, if to.Some? then to.value else "broadcast", us, to, id, codec.text(payload))
  }

  datatype Ack = Ack(to: NodeId, messageId: string, from: NodeId)

  /** A directed message that is delivered is acknowledged to the neighbour it came
      from, if that still has a channel. */
  function Acknowledges(us: NodeId, h: Handled, m: MeshMessage, fromPeer: NodeId, open: set<NodeId>): Option<Ack> {
    if h.delivered && m.to.Some? && fromPeer in open then Some(Ack(fromPeer, m.messageId, us)) else None
  }

  /** A neighbour is acknowledged exactly when the message it handed over was
      processed here, was addressed to this node alone, and the neighbour can still
      be reached; the acknowledgement names the message and this node. */
  lemma AcknowledgesIff(us: NodeId, seen: SeenMap, m: MeshMessage, now: nat, peers: seq<PeerInfo>, score: Score,
      open: set<NodeId>, fromPeer: NodeId, ack: Ack)
    ensures var h := Handle(us, seen, m, now, peers, score, open);
      Acknowledges(us, h, m, fromPeer, open) == Some(ack) <==>
        && m.ttl > 0 && us !in m.path && (m.messageId in seen ==> now >= seen[m.messageId] + 60_000)
        && m.to == Some(us) && fromPeer in open
        && ack.to == fromPeer && ack.messageId == m.messageId && ack.from == us
  {
    HandleMeaning(us, seen, m, now, peers, score, open, us);
  }

  /** Either record shows the message's id. Data that is no packet is shown as it is,
      from the neighbour it came from; a sent message is shown as it was given. */
  lemma RecordsMean(codec: Codec, us: NodeId, m: MeshMessage, fromPeer: NodeId, payload: Octets)
    ensures var r := Delivered(codec, m, fromPeer);
      && r.incoming && r.peer == fromPeer && r.messageId == m.messageId
      && (codec.decode(m.data).None? ==> r.from == fromPeer && r.to == m.to && r.content == codec.text(m.data))
      && (codec.decode(m.data).Some? ==>
            var p := codec.decode(m.data).value; r.from == p.src && r.to == p.dst && r.content == codec.text(p.payload))
    ensures var s := SentRecord(codec, us, m.to, payload, m.messageId);
      && !s.incoming && s.from == us && s.to == m.to && s.messageId == m.messageId && s.content == codec.text(payload)
      && s.peer == match m.to case Some(id) => id case None => "broadcast"
  {
  }

  // ----- The node's mutable state -----

  class MeshNode {
    const id: NodeId
    const codec: Codec
    var seen: SeenMap
    /** Every record pushed so far; `Inbox` says which of them are kept. */
    var inbox: seq<Record>

    constructor (id: NodeId, codec: Codec)
      ensures this.id == id && this.codec == codec && seen == map[] && inbox == []
    {
      this.id, this.codec := id, codec;
      seen, inbox := map[], [];
    }

    method ShouldProcess(m: MeshMessage, now: nat) returns (ok: bool)
      ensures ok == Accepts(id, seen, m, now)
    {
      if m.ttl == 0 {
        return false;
      }
      if m.messageId in seen {
        if now - seen[m.messageId] < DEDUP_WINDOW_MS {
          return false;
        }
      }
      if id in m.path {
        return false;
      }
      return true;
    }

    method MarkSeen(messageId: string, now: nat)
      modifies this`seen
      ensures seen == Marked(old(seen), messageId, now)
    {
      seen := seen[messageId := now];
      seen := map k | k in seen && now - seen[k] < RETENTION_MS :: seen[k];
    }

    /** Handles an incoming message and returns the copies sent on and the
        acknowledgement, if any. */
    method HandleMeshMessage(m: MeshMessage, fromPeer: NodeId, now: nat, peers: seq<PeerInfo>, score: Score,
        open: set<NodeId>)
      returns (sends: seq<Send>, ack: Option<Ack>)
      modifies this
      ensures var h := Handle(id, old(seen), m, now, peers, score, open);
        && seen == h.seen && sends == h.sends && ack == Acknowledges(id, h, m, fromPeer, open)
        && inbox == old(inbox) + if h.delivered then [Delivered(codec, m, fromPeer)] else []
    {
      sends, ack := [], None;
      var packet := codec.decode(m.data);
      var ok := ShouldProcess(m, now);
      if !ok {
        return;
      }
      MarkSeen(m.messageId, now);
      if IsForUs(id, m) {
        var record := if packet.Some?
          then Record(true, fromPeer, packet.value.src, packet.value.dst, m.messageId, codec.text(packet.value.payload))
          else Record(true, fromPeer, fromPeer, m.to, m.messageId, codec.text(m.data));
        inbox := inbox + [record];
        if m.to.Some? {
          if fromPeer in open {
            ack := Some(Ack(fromPeer, m.messageId, id));
          }
          return;
        }
      }
      var selected := SelectPeers(m, peers, score, MAX_FORWARD_PEERS);
      var forward := Forwarded(id, m);
      for i := 0 to |selected|
        invariant sends == SendsTo(selected[..i], open, forward)
      {
        assert selected[..i + 1][..i] == selected[..i];
        if selected[i] in open {
          sends := sends + [Send(selected[i], forward)];
        }
      }
      assert selected[..|selected|] == selected;
    }

    /** Originates a message: copies for the target, or for every active peer. What
        is sent appears in the sender's own inbox. */
    method SendMeshMessage(to: Option<NodeId>, payload: Octets, messageId: string, active: seq<NodeId>)
      returns (r: SendResult)
      modifies this`inbox
      ensures r == Originate(id, to, codec.encode(PacketOf(id, to, payload)), messageId, active)
      ensures inbox == old(inbox) + if r.Sent? then [SentRecord(codec, id, to, payload, messageId)] else []
    {
      var m := MeshMessage(id, to, codec.encode(Packet(id, Address(to), payload)), messageId, DEFAULT_TTL, []);
      if active == [] {
        return NotConnected;
      }
      var targets := active;
      if to.Some? {
        if to.value !in active {
          return NotConnected;
        }
        targets := [to.value];
      }
      var peer := if to.Some? then to.value else "broadcast";
      inbox := inbox + [Record(false, peer, id, to, messageId, codec.text(payload))];
      var copies: seq<Send> := [];
      for i := 0 to |targets|
        invariant |copies| == i && forall k :: 0 <= k < i ==> copies[k] == Send(targets[k], m)
      {
        copies := copies + [Send(targets[i], m)];
      }
      r := Sent(copies);
    }
  }
}
