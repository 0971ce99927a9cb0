/** A node's inbox: numbered records, the newest ones kept, polled by number. */
module Inbox {

  const CAPACITY := 500
  const MAX_SEQ := 0xFFFF_FFFF_FFFF_FFFF

  datatype Record<T> = Record(number: nat, body: T)

  /** The number of the record pushed when `k` had been pushed before it; the
      counter saturates. */
  function Number(k: nat): nat {
    if k + 1 <= MAX_SEQ then k + 1 else MAX_SEQ
  }

  function Smaller(x: nat, y: nat): nat {
    if x < y then x else y
  }

  /** Everything pushed from position `from` on, numbered. */
  function Numbered<T>(log: seq<T>, from: nat): (r: seq<Record<T>>)
    requires from <= |log|
    ensures |r| == |log| - from
    ensures forall i :: 0 <= i < |r| ==> r[i] == Record(Number(from + i), log[from + i])
  {
    seq(|log| - from, i requires 0 <= i < |log| - from => Record(Number(from + i), log[from + i]))
  }

  /** What the inbox holds after `log` has been pushed. */
  function Held<T>(log: seq<T>): seq<Record<T>> {
    Numbered(log, |log| - Smaller(|log|, CAPACITY))
  }

  /** The records after `since`. */
  function Newer<T>(records: seq<Record<T>>, since: nat): (r: seq<Record<T>>) {
    if records == [] then [] else
      var last, rest := records[|records| - 1], Newer(records[..|records| - 1], since);
      if last.number > since then rest + [last] else rest
  }

  function Clamped(limit: nat): (r: nat)
    ensures 1 <= r <= 500 && (1 <= limit ==> r <= limit) && (r < 500 ==> limit <= r)
  {
    if limit < 1 then 1 else if limit > CAPACITY then CAPACITY else limit
  }

  /** The newest `Clamped(limit)` records after `since`. */
  function Listed<T>(records: seq<Record<T>>, since: nat, limit: nat): seq<Record<T>> {
    var newer := Newer(records, since);
    newer[|newer| - Smaller(|newer|, Clamped(limit))..]
  }

  /** The number to poll from next. */
  function Next<T>(records: seq<Record<T>>, since: nat): nat {
    if records == [] then since else records[|records| - 1].number
  }

  class InboxState<T> {
    var records: seq<Record<T>>
    var nextSeq: nat
    ghost var log: seq<T>

    ghost predicate Valid()
      reads this
    {
      records == Held(log) && nextSeq == Number(|log|)
    }

    constructor ()
      ensures Valid() && log == []
    {
      records, nextSeq, log := [], 1, [];
    }

    method Push(body: T)
      requires Valid()
      modifies this
      ensures Valid() && log == old(log) + [body]
    {
      var number := nextSeq;
      nextSeq := if nextSeq + 1 <= MAX_SEQ then nextSeq + 1 else MAX_SEQ;
      records := records + [Record(number, body)];
      ghost var pushed := records;
      hide Held, Number;
      while |records| > CAPACITY
        invariant records == pushed || (|pushed| > CAPACITY && records == pushed[1..])
        invariant log == old(log) && nextSeq == Number(|log| + 1)
      {
        records := records[1..];
      }
      HeldAfterPush(log, body);
      log := log + [body];
    }

    method List(since: nat, limit: nat) returns (next: nat, out: seq<Record<T>>)
      ensures out == Listed(records, since, limit)
      ensures next == Next(records, since)
    {
      out := [];
      for i := 0 to |records|
        invariant out == Newer(records[..i], since)
      {
        assert records[..i + 1][..i] == records[..i];
        if records[i].number > since {
          out := out + [records[i]];
        }
      }
      assert records[..|records|] == records;
      var keep := Clamped(limit);
      if |out| > keep {
        out := out[|out| - keep..];
      }
      next := if records == [] then since else records[|records| - 1].number;
    }
  }

  lemma HeldAfterPush<T>(log: seq<T>, body: T)
    ensures var pushed := Held(log) + [Record(Number(|log|), body)];
      |pushed| <= CAPACITY + 1 && Held(log + [body]) == if |pushed| > CAPACITY then pushed[1..] else pushed
  {
    hide Number;
    var more, pushed := log + [body], Held(log) + [Record(Number(|log|), body)];
    var r := if |pushed| > CAPACITY then pushed[1..] else pushed;
    var from := |more| - Smaller(|more|, CAPACITY);
    forall i | 0 <= i < |r| ensures r[i] == Record(Number(from + i), more[from + i]) {
    }
  }

  lemma NumberedTail<T>(log: seq<T>, from: nat, d: nat)
    requires from + d <= |log|
    ensures Numbered(log, from)[d..] == Numbered(log, from + d)
  {
  }

  lemma NumberedSnoc<T>(log: seq<T>, body: T, from: nat)
    requires from <= |log|
    ensures Numbered(log + [body], from) == Numbered(log, from) + [Record(Number(|log|), body)]
  {
  }

  lemma {:induction false} NewerSnoc<T>(records: seq<Record<T>>, r: Record<T>, since: nat)
    ensures Newer(records + [r], since) == if r.number > since then Newer(records, since) + [r]
      else Newer(records, since)
  {
    assert (records + [r])[..|records|] == records;
  }

  /** Filtering by number cuts the numbered log at that number. */
  lemma {:induction false} NewerIsTail<T>(log: seq<T>, from: nat, since: nat)
    requires from <= |log| <= MAX_SEQ && from <= since
    ensures Newer(Numbered(log, from), since) == Numbered(log, Smaller(since, |log|))
    decreases |log|
  {
    if from == |log| {
    } else {
      var front, last := log[..|log| - 1], log[|log| - 1];
      assert log == front + [last] && Number(|front|) == |log|;
      hide Numbered, Newer, Number;
      NewerIsTail(front, from, since);
      NumberedSnoc(front, last, from);
      NewerSnoc(Numbered(front, from), Record(|log|, last), since);
      if since < |log| {
        NumberedSnoc(front, last, since);
      } else {
        assert Numbered(front, |front|) == Numbered(log, |log|) == [];
      }
    }
  }

  /** Everything held is newer than any number before it. */
  lemma {:induction false} AllNewer<T>(log: seq<T>, from: nat, since: nat)
    requires since <= from <= |log| <= MAX_SEQ
    ensures Newer(Numbered(log, from), since) == Numbered(log, from)
    decreases |log|
  {
    if from < |log| {
      var front, last := log[..|log| - 1], log[|log| - 1];
      assert log == front + [last] && Number(|front|) == |log|;
      hide Numbered, Newer, Number;
      AllNewer(front, from, since);
      NumberedSnoc(front, last, from);
      NewerSnoc(Numbered(front, from), Record(|log|, last), since);
    }
  }

  /** The held records after `since` are the end of the numbered log. */
  lemma {:induction false} NewerHeld<T>(log: seq<T>, since: nat)
    requires since <= |log| <= MAX_SEQ
    ensures var from := |log| - Smaller(|log|, CAPACITY);
      Newer(Held(log), since) == Numbered(log, if since < from then from else since)
  {
    hide Numbered, Newer, Number;
    var from := |log| - Smaller(|log|, CAPACITY);
    if from <= since {
      NewerIsTail(log, from, since);
    } else {
      AllNewer(log, from, since);
    }
  }

  /** What a poll sees: of the messages pushed since the last poll, the newest
      that fit the limit. */
  lemma PollSeesTail<T>(log: seq<T>, since: nat, limit: nat)
    requires since <= |log| <= MAX_SEQ
    ensures Listed(Held(log), since, limit) == Numbered(log, |log| - Smaller(|log| - since, Clamped(limit)))
  {
    hide Numbered, Newer, Clamped, Number, Held;
    var from := |log| - Smaller(|log|, CAPACITY);
    NewerHeld(log, since);
    var start := if since < from then from else since;
    NumberedTail(log, start, |log| - start - Smaller(|log| - start, Clamped(limit)));
  }

  /** A poll misses nothing if and only if no more messages arrived since the given
      number than its limit, capped by the capacity; the next number to poll from
      is then the last one. */
  lemma PollLosesNothingIff<T>(log: seq<T>, since: nat, limit: nat)
    requires since <= |log| <= MAX_SEQ
    ensures Listed(Held(log), since, limit) == Numbered(log, since) <==> FitsPoll(|log| - since, limit)
    ensures Next(Held(log), since) == if log == [] then since else |log|
  {
    PollSeesTail(log, since, limit);
    FitsPollIff(|log| - since, limit);
    var from := |log| - Smaller(|log| - since, Clamped(limit));
    if from != since {
      assert |Numbered(log, from)| != |Numbered(log, since)|;
    }
  }

  // ----- A client that keeps polling -----

  /** `polls[i]` is how many messages had been pushed when the client polled for
      the i-th time, of the messages pushed in the end. */
  predicate IsSchedule<T>(log: seq<T>, polls: seq<nat>) {
    && (forall i :: 0 <= i < |polls| ==> polls[i] <= |log|)
    && (forall i, k :: 0 <= i < k < |polls| ==> polls[i] <= polls[k])
  }

  /** The number the client polls from after the given polls. */
  function Cursor<T>(log: seq<T>, polls: seq<nat>): nat
    requires IsSchedule(log, polls)
  {
    if polls == [] then 0
    else Next(Held(log[..polls[|polls| - 1]]), Cursor(log, polls[..|polls| - 1]))
  }

  /** Everything the client has been given, poll after poll. */
  function Gathered<T>(log: seq<T>, polls: seq<nat>, limit: nat): seq<Record<T>>
    requires IsSchedule(log, polls)
  {
    if polls == [] then [] else
      var front, now := polls[..|polls| - 1], polls[|polls| - 1];
      Gathered(log, front, limit) + Listed(Held(log[..now]), Cursor(log, front), limit)
  }

  function LastPoll(polls: seq<nat>): nat {
    if polls == [] then 0 else polls[|polls| - 1]
  }

  lemma {:induction false} CursorIsLastPoll<T>(log: seq<T>, polls: seq<nat>)
    requires IsSchedule(log, polls) && |log| <= MAX_SEQ
    ensures Cursor(log, polls) == LastPoll(polls)
  {
    if polls != [] {
      var front, now := polls[..|polls| - 1], polls[|polls| - 1];
      CursorIsLastPoll(log, front);
      PollLosesNothingIff(log[..now], LastPoll(front), 1);
    }
  }

  /** A poll returns at least one record, at most 500, and otherwise up to its limit. */
  predicate FitsPoll(arrived: int, limit: nat) {
    arrived <= 500 && (arrived <= limit || arrived <= 1)
  }

  lemma FitsPollIff(arrived: int, limit: nat)
    ensures FitsPoll(arrived, limit) <==> arrived <= Clamped(limit)
  {
  }

  /** How many messages arrived between a poll and the one before it. */
  function Gap(polls: seq<nat>, i: nat): int
    requires i < |polls|
  {
    if i == 0 then polls[0] as int else polls[i] as int - polls[i - 1] as int
  }

  /** The messages that arrive between two polls fit the limit. */
  predicate KeepsUp(polls: seq<nat>, limit: nat) {
    forall i :: 0 <= i < |polls| ==> FitsPoll(Gap(polls, i), limit)
  }

  lemma NumberedParts<T>(log: seq<T>, from: nat, to: nat)
    requires from <= to <= |log|
    ensures Numbered(log[..from], 0) + Numbered(log[..to], from) == Numbered(log[..to], 0)
  {
  }

  /** What one poll adds. */
  lemma {:induction false} PollAdds<T>(log: seq<T>, polls: seq<nat>, limit: nat)
    requires IsSchedule(log, polls) && |log| <= MAX_SEQ && polls != []
    ensures var front, now := polls[..|polls| - 1], polls[|polls| - 1];
      && LastPoll(front) <= now
      && Gathered(log, polls, limit) == Gathered(log, front, limit)
           + Numbered(log[..now], now - Smaller(now - LastPoll(front), Clamped(limit)))
  {
    hide Numbered, Clamped, Held, Listed, Cursor, Number, Next;
    var front, now := polls[..|polls| - 1], polls[|polls| - 1];
    CursorIsLastPoll(log, front);
    PollSeesTail(log[..now], LastPoll(front), limit);
  }

  lemma {:induction false} GatheredInOrder<T>(log: seq<T>, polls: seq<nat>, limit: nat)
    requires IsSchedule(log, polls) && |log| <= MAX_SEQ
    ensures var r := Gathered(log, polls, limit);
      && |r| <= LastPoll(polls)
      && (forall i :: 0 <= i < |r| ==> 1 <= r[i].number <= LastPoll(polls) && r[i].body == log[r[i].number - 1])
      && (forall i, k :: 0 <= i < k < |r| ==> r[i].number < r[k].number)
  {
    hide Gathered, Clamped;
    if polls == [] {
      NothingGathered(log, limit);
    } else {
      GatheredInOrder(log, polls[..|polls| - 1], limit);
      PollAdds(log, polls, limit);
    }
  }

  lemma {:induction false} NothingGathered<T>(log: seq<T>, limit: nat)
    ensures Gathered(log, [], limit) == []
  {
  }

  /** Whatever the schedule, a client that polls with the number of its previous
      poll receives messages in order, each at most once and unchanged; and it
      receives every message exactly once if and only if no more arrive between two
      polls than its limit, capped by the capacity. */
  lemma {:induction false} PollingLosesNothingIff<T>(log: seq<T>, polls: seq<nat>, limit: nat)
    requires IsSchedule(log, polls) && |log| <= MAX_SEQ
    ensures var r := Gathered(log, polls, limit);
      && (forall i :: 0 <= i < |r| ==> 1 <= r[i].number <= LastPoll(polls) && r[i].body == log[r[i].number - 1])
      && (forall i, k :: 0 <= i < k < |r| ==> r[i].number < r[k].number)
      && (r == Numbered(log[..LastPoll(polls)], 0) <==> KeepsUp(polls, limit))
  {
    hide Gathered, Clamped, Numbered;
    GatheredInOrder(log, polls, limit);
    CompleteIffKeepsUp(log, polls, limit);
  }

  lemma {:induction false} CompleteIffKeepsUp<T>(log: seq<T>, polls: seq<nat>, limit: nat)
    requires IsSchedule(log, polls) && |log| <= MAX_SEQ
    ensures Gathered(log, polls, limit) == Numbered(log[..LastPoll(polls)], 0) <==> KeepsUp(polls, limit)
  {
    hide Gathered, Clamped, Numbered;
    if polls == [] {
      NothingGathered(log, limit);
    } else {
      var front, now := polls[..|polls| - 1], polls[|polls| - 1];
      var prior := LastPoll(front);
      CompleteIffKeepsUp(log, front, limit);
      GatheredInOrder(log, front, limit);
      PollAdds(log, polls, limit);
      NumberedParts(log, prior, now);
      KeepsUpSnoc(polls, limit);
      FitsPollIff(now - prior, limit);
      var got, all := Gathered(log, front, limit), Numbered(log[..prior], 0);
      var added := Numbered(log[..now], now - Smaller(now - prior, Clamped(limit)));
      var due := Numbered(log[..now], prior);
      if now - prior <= Clamped(limit) {
        assert added == due;
        SameTail(got, all, due);
      } else {
        assert |got + added| < |all + due|;
      }
    }
  }

  lemma SameTail<T>(a: seq<T>, b: seq<T>, tail: seq<T>)
    ensures a + tail == b + tail <==> a == b
  {
    if a + tail == b + tail {
      assert |a| == |b|;
      assert a == (a + tail)[..|a|] && b == (b + tail)[..|b|];
    }
  }

  lemma KeepsUpSnoc(polls: seq<nat>, limit: nat)
    requires polls != []
    ensures var front, now := polls[..|polls| - 1], polls[|polls| - 1];
      KeepsUp(polls, limit) <==> KeepsUp(front, limit) && FitsPoll(now - LastPoll(front), limit)
  {
    hide FitsPoll;
    var front, last := polls[..|polls| - 1], |polls| - 1;
    assert forall i :: 0 <= i < last ==> Gap(front, i) == Gap(polls, i);
    assert Gap(polls, last) == polls[last] - LastPoll(front);
  }
}
