/** Contact traces and the one-pass earliest-arrival scan.

    Times are mathematical reals; the floating-point infinity that marks an
    unreachable node is the constructor `Never`. A contact's interval is closed
    at both ends, as the scan's comparisons treat it. */
module ContactTraces {
  import opened Options
  import opened Orders
  import opened Reals

  datatype Arrival = At(time: real) | Never {
    /** "No later than", with `Never` the latest of all. */
    predicate NoLaterThan(other: Arrival) {
      other.At? ==> this.At? && this.time <= other.time
    }
  }

  datatype Contact = Contact(start: real, end: real, a: nat, b: nat)

  /** `c` connects `u` and `v`, in either direction. */
  predicate Joins(c: Contact, u: nat, v: nat) {
    (u == c.a && v == c.b) || (u == c.b && v == c.a)
  }

  predicate InRange(cs: seq<Contact>, n: nat) {
    forall i :: 0 <= i < |cs| ==> cs[i].a < n && cs[i].b < n
  }

  predicate SortedByStart(cs: seq<Contact>) {
    forall i, k :: 0 <= i < k < |cs| ==> cs[i].start <= cs[k].start
  }

  /** No interval of the trace ends before it starts. */
  predicate Forward(cs: seq<Contact>) {
    forall i :: 0 <= i < |cs| ==> cs[i].start <= cs[i].end
  }

  datatype ContactTrace = ContactTrace(n: nat, duration: real, contacts: seq<Contact>) {
    /** What both producers of traces establish. */
    predicate Valid() {
      && InRange(contacts, n)
      && SortedByStart(contacts)
      && forall i :: 0 <= i < |contacts| ==> contacts[i].a < contacts[i].b
    }
  }

  // ----- The scan -----

  /** The arrival at one end of `c` after the other end, holding since `here`,
      has offered its copy. */
  function Offer(c: Contact, here: Arrival, there: Arrival): Arrival {
    if here.At? && here.time <= c.end
       && Max(c.start, here.time) <= c.end
       && !there.NoLaterThan(At(Max(c.start, here.time)))
    then At(Max(c.start, here.time))
    else there
  }

  /** One contact of the scan: both ends are read before either is written. */
  function Relax(c: Contact, t0: real, arrival: seq<Arrival>): (r: seq<Arrival>)
    requires c.a < |arrival| && c.b < |arrival|
    ensures |r| == |arrival|
  {
    if c.end < t0 then arrival else
      var ra, rb := arrival[c.a], arrival[c.b];
      var relaxed := arrival[c.b := Offer(c, ra, arrival[c.b])];
      relaxed[c.a := Offer(c, rb, relaxed[c.a])]
  }

  function Initial(n: nat, src: nat, t0: real): (r: seq<Arrival>)
    requires src < n
    ensures |r| == n
  {
    seq(n, v => if v == src then At(t0) else Never)
  }

  /** The arrival vector once the first `k` contacts have been processed. */
  function Scan(cs: seq<Contact>, k: nat, n: nat, src: nat, t0: real): (r: seq<Arrival>)
    requires k <= |cs| && InRange(cs, n) && src < n
    ensures |r| == n
  {
    if k == 0 then Initial(n, src, t0)
    else Relax(cs[k - 1], t0, Scan(cs, k - 1, n, src, t0))
  }

  const ByStart: Contact -> real := (c: Contact) => c.start

  /** The trace's stable sort. */
  function SortContacts(cs: seq<Contact>): seq<Contact> {
    Sort(cs, ByStart)
  }

  lemma {:induction false} SortedContacts(cs: seq<Contact>)
    ensures SortedByStart(SortContacts(cs)) && multiset(SortContacts(cs)) == multiset(cs)
    ensures forall t :: WithKey(SortContacts(cs), ByStart, t) == WithKey(cs, ByStart, t)
    ensures |SortContacts(cs)| == |cs| && forall c :: c in SortContacts(cs) <==> c in cs
  {
    SortSorts(cs, ByStart);
    SortedSize(cs, ByStart);
    assert Ascending(SortContacts(cs), ByStart);
    forall c ensures c in SortContacts(cs) <==> c in cs {
      SortedMembers(cs, ByStart, c);
    }
  }

  // ----- Loading a trace -----

  /** A line of the file: blank, or its number of cells and what the first four
      parse to. */
  datatype Line = Blank | Fields(cells: nat, start: Option<real>, end: Option<real>, a: Option<nat>, b: Option<nat>)

  datatype Problem = TooFewCells | BadStart | BadEnd | BadNodeA | BadNodeB

  datatype Row = Row(start: real, end: real, a: nat, b: nat)

  datatype LoadResult = Loaded(trace: ContactTrace) | BadLine(number: nat, problem: Problem) | NoContacts

  /** What is wrong with a line; a first line whose start is not a number is a
      header, provided it has enough cells. */
  function Fault(line: Line, first: bool): Option<Problem> {
    if line.Blank? then None
    else if line.cells < 4 then Some(TooFewCells)
    else if first && line.start.None? then None
    else if line.start.None? then Some(BadStart)
    else if line.end.None? then Some(BadEnd)
    else if line.a.None? then Some(BadNodeA)
    else if line.b.None? then Some(BadNodeB)
    else None
  }

  /** Which lines can be read, and what is reported of the others. */
  lemma FaultMeaning(line: Line, first: bool)
    ensures Fault(line, first) == None <==>
      line.Blank? || (line.cells >= 4 && (
        (first && line.start.None?) || (line.start.Some? && line.end.Some? && line.a.Some? && line.b.Some?)))
    ensures Fault(line, first) == Some(TooFewCells) <==> line.Fields? && line.cells < 4
    ensures Fault(line, first) == Some(BadStart) <==>
      line.Fields? && line.cells >= 4 && line.start.None? && !first
    ensures Fault(line, first) == Some(BadEnd) <==>
      line.Fields? && line.cells >= 4 && line.start.Some? && line.end.None?
    ensures Fault(line, first) == Some(BadNodeA) <==>
      line.Fields? && line.cells >= 4 && line.start.Some? && line.end.Some? && line.a.None?
  {
  }

  /** The line holds the values of a row. */
  predicate Holds(line: Line, row: Row) {
    line.Fields? && line.start == Some(row.start) && line.end == Some(row.end)
    && line.a == Some(row.a) && line.b == Some(row.b)
  }

  /** There is one row for each line with a start, in the order of the lines. */
  lemma {:induction false} RowsMeaning(lines: seq<Line>) returns (at: seq<nat>)
    requires Faultless(lines, |lines|)
    ensures |at| == |Rows(lines)| && forall k :: 0 <= k < |at| ==>
      at[k] < |lines| && Holds(lines[at[k]], Rows(lines)[k])
    ensures forall i, k :: 0 <= i < k < |at| ==> at[i] < at[k]
    ensures forall i :: 0 <= i < |lines| && lines[i].Fields? && lines[i].start.Some? ==> i in at
  {
    if lines == [] {
      at := [];
    } else {
      var k := |lines| - 1;
      RowsSnoc(lines, k);
      assert lines[..k + 1] == lines;
      assert Fault(lines[k], k == 0).None?;
      hide Rows, Fault;
      at := RowsMeaning(lines[..k]);
      if lines[k].Fields? && lines[k].start.Some? {
        at := at + [k];
      }
    }
  }

  ghost predicate Faultless(lines: seq<Line>, k: nat) {
    k <= |lines| && forall i :: 0 <= i < k ==> Fault(lines[i], i == 0).None?
  }

  /** The rows of the lines that are neither blank nor a header. */
  function Rows(lines: seq<Line>): (r: seq<Row>)
    requires Faultless(lines, |lines|)
  {
    if lines == [] then [] else
      var front, last := lines[..|lines| - 1], lines[|lines| - 1];
      assert Fault(last, |lines| == 1).None?;
      Rows(front) +
      if last.Fields? && last.start.Some? then [Row(last.start.value, last.end.value, last.a.value, last.b.value)]
        else []
  }

  /** The contact a row stands for: lower node first. */
  function Canonical(row: Row): (c: Contact)
    ensures c.start == row.start && c.end == row.end && c.a <= c.b
    ensures (c.a == row.a && c.b == row.b) || (c.a == row.b && c.b == row.a)
  {
    if row.a < row.b then Contact(row.start, row.end, row.a, row.b)
    else Contact(row.start, row.end, row.b, row.a)
  }

  /** The rows that survive, in file order: those between two distinct nodes. */
  function Kept(rows: seq<Row>): (r: seq<Contact>)
    ensures forall c :: c in r ==> c.a < c.b
    ensures r == [] <==> forall i :: 0 <= i < |rows| ==> rows[i].a == rows[i].b
  {
    if rows == [] then [] else
      var last := rows[|rows| - 1];
      var rest := Kept(rows[..|rows| - 1]);
      if last.a == last.b then rest else rest + [Canonical(last)]
  }

  lemma {:induction false} KeptSnoc(rows: seq<Row>, row: Row)
    ensures Kept(rows + [row]) == if row.a == row.b then Kept(rows) else Kept(rows) + [Canonical(row)]
  {
    assert (rows + [row])[..|rows|] == rows;
  }

  /** Rows are kept one by one: a row between two nodes becomes one contact with its
      times and its lower node first, a self-contact none. */
  lemma {:induction false} KeptAdds(rows: seq<Row>, more: seq<Row>, row: Row)
    ensures Kept(rows + more) == Kept(rows) + Kept(more)
    ensures Kept([row]) ==
      if row.a < row.b then [Contact(row.start, row.end, row.a, row.b)]
      else if row.a > row.b then [Contact(row.start, row.end, row.b, row.a)]
      else []
  {
    KeptNone();
    KeptSnoc([], row);
    assert [] + [row] == [row];
    hide Kept;
    if more == [] {
      assert rows + more == rows;
    } else {
      var front, last := more[..|more| - 1], more[|more| - 1];
      KeptAdds(rows, front, row);
      assert rows + more == rows + front + [last] && more == front + [last];
      KeptSnoc(rows + front, last);
      KeptSnoc(front, last);
    }
  }

  lemma KeptNone()
    ensures Kept([]) == []
  {
  }

  /** What the reading loop accumulates over the contacts kept so far. */
  ghost predicate Summarises(contacts: seq<Contact>, maxNode: nat, duration: real) {
    && (forall c :: c in contacts ==> c.b <= maxNode && c.end <= duration)
    && (if contacts == [] then maxNode == 0 else exists c :: c in contacts && c.b == maxNode)
    && (duration == 0.0 || exists c :: c in contacts && c.end == duration)
  }

  lemma SummariesExtend(contacts: seq<Contact>, maxNode: nat, duration: real, c: Contact)
    requires Summarises(contacts, maxNode, duration)
    ensures Summarises(contacts + [c], if maxNode < c.b then c.b else maxNode, Max(duration, c.end))
  {
    var more := contacts + [c];
    assert c in more && forall x :: x in contacts ==> x in more;
  }

  lemma RowsSnoc(lines: seq<Line>, k: nat)
    requires k < |lines| && Faultless(lines, k + 1)
    ensures Faultless(lines[..k], k) && Faultless(lines[..k + 1], k + 1)
    ensures lines[k].Fields? && lines[k].start.Some? ==> lines[k].end.Some? && lines[k].a.Some? && lines[k].b.Some?
    ensures Rows(lines[..k + 1]) ==
      if lines[k].Blank? || lines[k].start.None? then Rows(lines[..k])
      else Rows(lines[..k]) + [Row(lines[k].start.value, lines[k].end.value, lines[k].a.value, lines[k].b.value)]
  {
    assert lines[..k + 1][..k] == lines[..k];
    assert Rows(lines[..k]) + [] == Rows(lines[..k]);
  }

  /** Reads up to the first faulty line. */
  method ReadLines(lines: seq<Line>) returns (contacts: seq<Contact>, maxNode: nat, duration: real, read: nat)
    ensures read <= |lines| && Faultless(lines[..read], read)
    ensures read < |lines| ==> Fault(lines[read], read == 0).Some?
    ensures contacts == Kept(Rows(lines[..read])) && Summarises(contacts, maxNode, duration)
  {
    hide Kept, Canonical, Summarises, Rows;
    contacts, maxNode, duration, read := [], 0, 0.0, 0;
    NothingRead();
    while read < |lines|
      invariant read <= |lines| && Faultless(lines, read) && Faultless(lines[..read], read)
      invariant contacts == Kept(Rows(lines[..read])) && Summarises(contacts, maxNode, duration)
    {
      var line := lines[read];
      if Fault(line, read == 0).Some? {
        return;
      }
      RowsSnoc(lines, read);
      read := read + 1;
      if line.Blank? || line.start.None? {
        continue;
      }
      var row := Row(line.start.value, line.end.value, line.a.value, line.b.value);
      KeptSnoc(Rows(lines[..read - 1]), row);
      if row.a == row.b {
        continue;
      }
      var c := Canonical(row);
      SummariesExtend(contacts, maxNode, duration, c);
      maxNode := if maxNode < c.b then c.b else maxNode;
      duration := Max(duration, c.end);
      contacts := contacts + [c];
    }
  }

  lemma NothingRead()
    ensures Rows([]) == [] && Kept([]) == [] && Summarises([], 0, 0.0)
  {
  }

  /** `trace` is sorted and canonical, holds exactly the kept contacts, those with
      one start in their order, and its size and duration are as small as they can
      be. */
  ghost predicate IsTraceOf(trace: ContactTrace, kept: seq<Contact>) {
    && trace.Valid() && multiset(trace.contacts) == multiset(kept) && trace.n > 0
    && (forall t :: WithKey(trace.contacts, ByStart, t) == WithKey(kept, ByStart, t))
    && Summarises(trace.contacts, trace.n - 1, trace.duration)
  }

  lemma SummariesPermute(contacts: seq<Contact>, sorted: seq<Contact>, maxNode: nat, duration: real)
    requires |sorted| == |contacts| && (forall c :: c in sorted <==> c in contacts)
      && Summarises(contacts, maxNode, duration)
    ensures Summarises(sorted, maxNode, duration)
  {
    if contacts != [] {
      assert contacts[0] in sorted;
    }
  }

  lemma {:induction false} SortedIsTrace(contacts: seq<Contact>, maxNode: nat, duration: real)
    requires Summarises(contacts, maxNode, duration) && forall c :: c in contacts ==> c.a < c.b
    ensures IsTraceOf(ContactTrace(maxNode + 1, duration, SortContacts(contacts)), contacts)
  {
    var sorted := SortContacts(contacts);
    hide SortContacts;
    SortedContacts(contacts);
    SummariesPermute(contacts, sorted, maxNode, duration);
    forall i | 0 <= i < |sorted| ensures sorted[i].a < sorted[i].b <= maxNode {
      assert sorted[i] in contacts;
    }
  }

  /** Loading reports the first faulty line, or that nothing was left to keep, or
      yields the trace of the kept contacts. */
  method LoadLines(lines: seq<Line>) returns (r: LoadResult)
    ensures r.BadLine? <==> exists i :: 0 <= i < |lines| && Fault(lines[i], i == 0).Some?
    ensures r.BadLine? ==> 1 <= r.number <= |lines| && Faultless(lines, r.number - 1)
    ensures r.BadLine? ==> Fault(lines[r.number - 1], r.number == 1) == Some(r.problem)
    ensures !r.BadLine? ==> Faultless(lines, |lines|)
    ensures r.NoContacts? ==> forall row :: row in Rows(lines) ==> row.a == row.b
    ensures r.Loaded? ==> IsTraceOf(r.trace, Kept(Rows(lines))) && exists row :: row in Rows(lines) && row.a != row.b
  {
    hide SortContacts, IsTraceOf, Summarises, Rows;
    var contacts, maxNode, duration, read := ReadLines(lines);
    if read < |lines| {
      assert Faultless(lines, read) by {
        assert forall i :: 0 <= i < read ==> lines[..read][i] == lines[i];
      }
      return BadLine(read + 1, Fault(lines[read], read == 0).value);
    }
    assert lines[..read] == lines;
    if contacts == [] {
      return NoContacts;
    }
    SortedIsTrace(contacts, maxNode, duration);
    r := Loaded(ContactTrace(maxNode + 1, duration, SortContacts(contacts)));
  }

  // ----- Generating a trace -----

  /** A contact as the generator makes it. */
  predicate Generated(c: Contact, n: nat, duration: real) {
    c.a < c.b < n && 0.0 <= c.start <= c.end <= duration
  }

  /** When the last of some meetings ended, or the phase before the first. */
  function Clock(contacts: seq<Contact>, phase: real): real {
    if contacts == [] then phase else contacts[|contacts| - 1].end
  }

  /** A gap before a meeting and its length. */
  datatype Draw = Draw(gap: real, length: real)

  /** The meetings of `a` and `b` follow from what was drawn: each starts one gap after
      the one before it ended, and lasts for its length or until the end of the trace. */
  predicate Follows(contacts: seq<Contact>, a: nat, b: nat, duration: real, phase: real, draws: seq<Draw>) {
    |contacts| == |draws| && (contacts != [] ==>
      var front, c, d := contacts[..|contacts| - 1], contacts[|contacts| - 1], draws[|draws| - 1];
      && Follows(front, a, b, duration, phase, draws[..|draws| - 1])
      && c.a == a && c.b == b
      && c.start == Clock(front, phase) + d.gap < duration
      && c.end == if c.start + d.length < duration then c.start + d.length else duration)
  }

  /** The draws lie within their ranges. */
  predicate InRanges(draws: seq<Draw>, least: real) {
    forall i :: 0 <= i < |draws| ==> draws[i].gap >= least && draws[i].length >= 0.0
  }

  /** Some draws within their ranges yield exactly these meetings, and a last gap that
      leads past the end of the trace. */
  ghost predicate AreMeetings(contacts: seq<Contact>, a: nat, b: nat, duration: real, gapMin: real) {
    var least := if duration < gapMin then duration else gapMin;
    exists phase, draws, gap ::
      && Follows(contacts, a, b, duration, phase, draws) && 0.0 <= phase < gapMin && InRanges(draws, least)
      && gap >= least && LeadsPast(contacts, phase, gap, duration)
  }

  predicate LeadsPast(contacts: seq<Contact>, phase: real, gap: real, duration: real) {
    Clock(contacts, phase) + gap >= duration
  }

  /** The meetings of one pair, in order and apart. A gap is at least the lower
      end of its range, which is `duration` in a trace shorter than `gapMin`; a
      length is drawn around a mean that is not negative, so neither is it. */
  method PairContacts(a: nat, b: nat, n: nat, duration: real, gapMin: real) returns (contacts: seq<Contact>)
    requires a < b < n && 0.0 < duration && 1.0 <= gapMin
    ensures forall i :: 0 <= i < |contacts| ==>
      Generated(contacts[i], n, duration) && contacts[i].a == a && contacts[i].b == b
    ensures forall i, k :: 0 <= i < k < |contacts| ==> contacts[i].end < contacts[k].start
    ensures AreMeetings(contacts, a, b, duration, gapMin)
  {
    contacts := [];
    var phase: real :| 0.0 <= phase < gapMin;
    var t := phase;
    var least := if duration < gapMin then duration else gapMin;
    ghost var draws: seq<Draw> := [];
    NothingFollows(a, b, duration, phase, least);
    hide Follows, InRanges, Clock;
    while true
      invariant 0.0 <= t == Clock(contacts, phase)
      invariant Follows(contacts, a, b, duration, phase, draws) && InRanges(draws, least)
      decreases duration + gapMin - t
    {
      var excess: real :| 0.0 <= excess;
      t := t + least + excess;
      if t >= duration {
        MeetingsEnd(contacts, a, b, duration, gapMin, phase, draws, least + excess);
        MeetingsAreGenerated(contacts, a, b, n, duration, gapMin);
        return;
      }
      var length: real :| 0.0 <= length;
      var end := if t + length < duration then t + length else duration;
      OneMoreMeeting(contacts, Contact(t, end, a, b), a, b, duration, phase, draws,
        Draw(least + excess, length), least);
      contacts := contacts + [Contact(t, end, a, b)];
      draws := draws + [Draw(least + excess, length)];
      t := end;
    }
  }

  lemma {:induction false} NothingFollows(a: nat, b: nat, duration: real, phase: real, least: real)
    ensures Follows([], a, b, duration, phase, []) && InRanges([], least) && Clock([], phase) == phase
  {
  }

  lemma {:induction false} MeetingsEnd(contacts: seq<Contact>, a: nat, b: nat, duration: real, gapMin: real,
      phase: real, draws: seq<Draw>, gap: real)
    requires var least := if duration < gapMin then duration else gapMin; InRanges(draws, least) && gap >= least
    requires Follows(contacts, a, b, duration, phase, draws) && 0.0 <= phase < gapMin
    requires Clock(contacts, phase) + gap >= duration
    ensures AreMeetings(contacts, a, b, duration, gapMin)
  {
    assert LeadsPast(contacts, phase, gap, duration);
  }

  lemma {:induction false} OneMoreMeeting(contacts: seq<Contact>, c: Contact, a: nat, b: nat, duration: real,
      phase: real, draws: seq<Draw>, d: Draw, least: real)
    requires Follows(contacts, a, b, duration, phase, draws) && InRanges(draws, least)
    requires d.gap >= least && d.length >= 0.0
    requires c.a == a && c.b == b && c.start == Clock(contacts, phase) + d.gap < duration
    requires c.end == if c.start + d.length < duration then c.start + d.length else duration
    ensures Follows(contacts + [c], a, b, duration, phase, draws + [d]) && InRanges(draws + [d], least)
    ensures Clock(contacts + [c], phase) == c.end
  {
    assert (contacts + [c])[..|contacts|] == contacts && (draws + [d])[..|draws|] == draws;
  }

  /** Meetings follow one another strictly and lie within the trace. */
  lemma MeetingsAreGenerated(contacts: seq<Contact>, a: nat, b: nat, n: nat, duration: real, gapMin: real)
    requires AreMeetings(contacts, a, b, duration, gapMin) && a < b < n && 0.0 < duration && 1.0 <= gapMin
    ensures forall i :: 0 <= i < |contacts| ==>
      Generated(contacts[i], n, duration) && contacts[i].a == a && contacts[i].b == b
    ensures forall i, k :: 0 <= i < k < |contacts| ==> contacts[i].end < contacts[k].start
    ensures Ascending(contacts, ByStart)
  {
    var least := if duration < gapMin then duration else gapMin;
    var phase: real, draws: seq<Draw> :|
      Follows(contacts, a, b, duration, phase, draws) && 0.0 <= phase < gapMin && InRanges(draws, least);
    assert least > 0.0;
    assert InRanges(draws, least);
    assert forall i :: 0 <= i < |draws| ==> draws[i].gap >= least && draws[i].length >= 0.0;
    OneAfterAnother(contacts, a, b, n, duration, phase, draws);
  }

  lemma {:induction false} OneAfterAnother(contacts: seq<Contact>, a: nat, b: nat, n: nat, duration: real, phase: real,
      draws: seq<Draw>)
    requires Follows(contacts, a, b, duration, phase, draws) && a < b < n && 0.0 <= phase
    requires forall i :: 0 <= i < |draws| ==> draws[i].gap > 0.0 && draws[i].length >= 0.0
    ensures forall i :: 0 <= i < |contacts| ==>
      && Generated(contacts[i], n, duration) && contacts[i].a == a && contacts[i].b == b
      && contacts[i].end <= Clock(contacts, phase)
    ensures forall i, k :: 0 <= i < k < |contacts| ==> contacts[i].end < contacts[k].start
    ensures 0.0 <= Clock(contacts, phase)
  {
    if contacts != [] {
      OneAfterAnother(contacts[..|contacts| - 1], a, b, n, duration, phase, draws[..|draws| - 1]);
    }
  }

  /** The contacts of one pair, in order. */
  function ContactsOf(contacts: seq<Contact>, a: nat, b: nat): seq<Contact> {
    Selected(contacts, (c: Contact) => c.a == a && c.b == b)
  }

  /** `coins` decides which pairs meet, and each pair that does has its meetings. */
  ghost predicate Populated(contacts: seq<Contact>, a: nat, b: nat, duration: real, gapMin: real, meets: bool) {
    if meets then AreMeetings(ContactsOf(contacts, a, b), a, b, duration, gapMin) else ContactsOf(contacts, a, b) == []
  }

  /** The pairs below `a`, and those of `a` with nodes below `b`, are populated. */
  ghost predicate AllPopulated(contacts: seq<Contact>, a: nat, n: nat, b: nat, duration: real, gapMin: real,
    pairActive: real, coins: map<(nat, nat), real>)
  {
    forall u: nat, v: nat :: u < v < n && (u < a || (u == a && v < b)) ==>
      && (u, v) in coins && 0.0 <= coins[(u, v)] < 1.0
      && Populated(contacts, u, v, duration, gapMin, coins[(u, v)] < pairActive)
  }

  lemma NothingFor(contacts: seq<Contact>, a: nat, b: nat)
    requires forall i :: 0 <= i < |contacts| ==> contacts[i].a < a || (contacts[i].a == a && contacts[i].b < b)
    ensures ContactsOf(contacts, a, b) == []
  {
    AllOrNothing(contacts, (c: Contact) => c.a == a && c.b == b);
  }

  lemma MoreForOnePair(contacts: seq<Contact>, more: seq<Contact>, a: nat, b: nat)
    requires forall i :: 0 <= i < |contacts| ==> contacts[i].a < a || (contacts[i].a == a && contacts[i].b < b)
    requires forall i :: 0 <= i < |more| ==> more[i].a == a && more[i].b == b
    ensures ContactsOf(contacts + more, a, b) == more
    ensures forall u: nat, v: nat :: u != a || v != b ==>
      ContactsOf(contacts + more, u, v) == ContactsOf(contacts, u, v)
  {
    NothingFor(contacts, a, b);
    forall u: nat, v: nat
      ensures ContactsOf(contacts + more, u, v) == ContactsOf(contacts, u, v) + if u == a && v == b then more else []
    {
      SelectedAdds(contacts, more, (c: Contact) => c.a == u && c.b == v);
      AllOrNothing(more, (c: Contact) => c.a == u && c.b == v);
    }
  }

  /** Sorting by start keeps the meetings of each pair, which are sorted already. */
  lemma SortedIsPopulated(contacts: seq<Contact>, n: nat, duration: real, gapMin: real, pairActive: real,
      coins: map<(nat, nat), real>)
    requires AllPopulated(contacts, n, n, 0, duration, gapMin, pairActive, coins) && 0.0 < duration && 1.0 <= gapMin
    ensures AllPopulated(SortContacts(contacts), n, n, 0, duration, gapMin, pairActive, coins)
  {
    forall a: nat, b: nat | a < b < n
      ensures ContactsOf(SortContacts(contacts), a, b) == ContactsOf(contacts, a, b)
    {
      assert Populated(contacts, a, b, duration, gapMin, coins[(a, b)] < pairActive);
      SortSelects(contacts, ByStart, (c: Contact) => c.a == a && c.b == b);
      if coins[(a, b)] < pairActive {
        MeetingsAreGenerated(ContactsOf(contacts, a, b), a, b, n, duration, gapMin);
      }
      SortOfSorted(ContactsOf(contacts, a, b), ByStart);
    }
  }

  /** The generated trace, with the draw made for each pair. */
  method Synthetic(n: nat, duration: real, meanContact: real, pairActive: real)
    returns (trace: ContactTrace, coins: map<(nat, nat), real>)
    requires 0.0 < duration && 0.0 <= meanContact
    ensures trace.n == n && trace.duration == duration && trace.Valid() && Forward(trace.contacts)
    ensures forall c :: c in trace.contacts ==> Generated(c, n, duration)
    ensures AllPopulated(trace.contacts, n, n, 0, duration, Max(meanContact, 1.0), pairActive, coins)
  {
    hide ContactsOf, AreMeetings, SortContacts;
    var contacts: seq<Contact> := [];
    var gapMin := Max(meanContact, 1.0);
    coins := map[];
    for a := 0 to n
      invariant forall i :: 0 <= i < |contacts| ==> Generated(contacts[i], n, duration)
      invariant forall i :: 0 <= i < |contacts| ==> contacts[i].a < a
      invariant AllPopulated(contacts, a, n, 0, duration, gapMin, pairActive, coins)
    {
      for b := a + 1 to n
        invariant forall i :: 0 <= i < |contacts| ==> Generated(contacts[i], n, duration)
        invariant forall i :: 0 <= i < |contacts| ==> contacts[i].a < a || (contacts[i].a == a && contacts[i].b < b)
        invariant AllPopulated(contacts, a, n, b, duration, gapMin, pairActive, coins)
      {
        var draw: real :| 0.0 <= draw < 1.0;
        coins := coins[(a, b) := draw];
        if draw >= pairActive {
          NothingFor(contacts, a, b);
          continue;
        }
        var more := PairContacts(a, b, n, duration, gapMin);
        MoreForOnePair(contacts, more, a, b);
        contacts := contacts + more;
      }
    }
    SortedIsGenerated(contacts, n, duration);
    SortedIsPopulated(contacts, n, duration, gapMin, pairActive, coins);
    trace := ContactTrace(n, duration, SortContacts(contacts));
  }

  lemma {:induction false} SortedIsGenerated(contacts: seq<Contact>, n: nat, duration: real)
    requires forall i :: 0 <= i < |contacts| ==> Generated(contacts[i], n, duration)
    ensures var sorted := SortContacts(contacts);
      SortedByStart(sorted) && forall i :: 0 <= i < |sorted| ==> Generated(sorted[i], n, duration)
  {
    var sorted := SortContacts(contacts);
    hide SortContacts;
    SortedContacts(contacts);
    forall i | 0 <= i < |sorted| ensures Generated(sorted[i], n, duration) {
      assert sorted[i] in contacts;
    }
  }

  /** The scan itself, relaxing the arrival vector in place. */
  method EarliestArrival(trace: ContactTrace, src: nat, t0: real) returns (arrival: array<Arrival>)
    requires InRange(trace.contacts, trace.n) && src < trace.n
    ensures fresh(arrival)
    ensures arrival[..] == Scan(trace.contacts, |trace.contacts|, trace.n, src, t0)
  {
    arrival := new Arrival[trace.n](v => if v == src then At(t0) else Never);
    var i := 0;
    while i < |trace.contacts|
      invariant i <= |trace.contacts|
      invariant arrival[..] == Scan(trace.contacts, i, trace.n, src, t0)
    {
      var c := trace.contacts[i];
      ghost var before := arrival[..];
      i := i + 1;
      if c.end < t0 {
        continue;
      }
      var ra, rb := arrival[c.a], arrival[c.b];
      if ra.At? && ra.time <= c.end {
        var arrive := Max(c.start, ra.time);
        if arrive <= c.end && !arrival[c.b].NoLaterThan(At(arrive)) {
          arrival[c.b] := At(arrive);
        }
      }
      assert arrival[..] == before[c.b := Offer(c, ra, before[c.b])];
      ghost var relaxed := arrival[..];
      if rb.At? && rb.time <= c.end {
        var arrive := Max(c.start, rb.time);
        if arrive <= c.end && !arrival[c.a].NoLaterThan(At(arrive)) {
          arrival[c.a] := At(arrive);
        }
      }
      assert arrival[..] == relaxed[c.a := Offer(c, rb, relaxed[c.a])];
    }
  }
}
