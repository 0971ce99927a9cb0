# Murmuration: routing, proved

A Dafny model of the decision logic of the Murmuration mesh network and of its two
routing benchmarks, with proofs of what that logic guarantees. `dafny verify
dfyconfig.toml` checks everything.

The project has four parts.

* **Contact traces** (`ContactTrace`, `Journeys`, `Foremost`, `Delivery`, `Backwards`,
  `Carriage`, `Predictability`, `TraceBench`, `ProphetRun`). The one-pass earliest-arrival scan is the
  least arrival over journeys that use contacts in index order, for every contact list. It is
  *not* the foremost arrival over all journeys for every trace, although the comment at
  `crates/murmuration-routing/src/trace.rs:131-134` calls it exact: two contacts that share a
  node and are open together can be ridden against their index order. The model says exactly
  when it is exact, for one start (a second pass changes nothing), for all starts (every
  snapshot of open contacts can be crossed in index order), and it follows when contacts
  sharing a node never overlap. On top of the scan, the oracle, epidemic, PRoPHET and direct
  runs are proved to tally per-message outcomes that are ordered message by message; each
  copying scheme is proved to deliver at the least time at which a copy can be carried under
  its rule. Contact intervals are closed at `end`, as the comparisons in the code treat them
  (the comments write them half-open).
* **The static benchmark** (`Network`, `OracleValues`, `Regret`, `Benchmark`, `QRouting`,
  `Generate`, `Optima`). The tolerant in-place value iteration reaches its fixed point in n-1
  sweeps; its values are within n-1 tolerances of the best walk of any length and attained by a
  real walk. For every tolerance and source the greedy arm is free of regret, and wherever it
  arrives its walk is within n-1 tolerances of the best. The comment at
  `core/src/bin/benchmark.rs:242-243` calls the values exact. They are not: for generated
  networks of three or more nodes they are exact in all of them only without a tolerance. A
  value can even be 0 although a walk exists; that cannot happen in a generated network exactly
  while the tolerance is below 0.35^(n-1), which for the shipped 1e-12 means at most 27 nodes,
  fewer than the largest networks the benchmark runs (`core/src/bin/benchmark.rs:680-686`).
  The comment's other claim, convergence in at most n sweeps, holds. Regret telescopes; the
  benchmark's Q-tables and the router's own Q-state never disagree.
* **The mesh** (`Router`, `Mesh`, `MeshBounds`, `Handlers`, `Learning`, `Inbox`). One node's handler, the
  whole network as a step system, and what holds in every reachable state: hop counts and
  paths, termination by the hop count alone, and at most one processing per node and minute. A
  directed message is only ever handed to its recipient over a direct connection; it is never
  relayed. The bandit a router learns and the numbered inbox are here too.
* **Wire formats** (`Bytes`, `Stun`, `Framing`). STUN binding responses (RFC 5389, sections 6,
  15, 15.1 and 15.2) and the padded, encrypted, length-prefixed message stream, as round trips.
  Under a key the stream round-trips exactly when every payload is below 65536 octets and
  nothing follows a message that closes the connection.

Conventions. Floating-point numbers are reals; floating-point infinity is the constructor
`Never`. A random draw is an arbitrary value of its range. A tolerance, the cipher, the peer
scores and the clock are parameters. Octets and words are integers, and exclusive or is defined
on their bits. Spec functions stand beside the methods: each method is proved equal to its
function or state change, and the lemmas say what that function means.

Hypotheses worth knowing. `Forward` (no interval ends before it starts) holds of every synthetic
trace but is not checked when a trace is loaded; `OneContactBoundIffForward` shows what goes wrong
without it and `Backwards` when the ordering survives. Message ids are fresh and no node is its
own peer. The mesh-wide deduplication bounds take a handler's check and its marking as one step,
although the code takes two locks (`core/src/node.rs:2160-2166`); `Handlers` separates the two
and says when deduplication survives at one node. The path, hop-count and termination results do not depend
on it, since their runs include steps that overwrite a node's seen map arbitrarily.

## Model

| member | source | states |
|---|---|---|
| ContactTraces.LoadLines | crates/murmuration-routing/src/trace.rs:47-81 | loading reports the first malformed line and what is wrong with it, skipping blank lines and a header; otherwise it fails exactly when every row is a self-contact, and else yields a sorted, canonical permutation of the kept rows, those with one start in file order, with size and duration as small as they can be |
| ContactTraces.FaultMeaning | crates/murmuration-routing/src/trace.rs:51-66 | which lines can be read, which of them is a header, and which of the problems is reported of the others |
| ContactTraces.RowsMeaning | crates/murmuration-routing/src/trace.rs:51-66 | one row, with the line's own values, for each line with a start, in the order of the lines |
| ContactTraces.KeptAdds | crates/murmuration-routing/src/trace.rs:67-73 | each row between two nodes becomes one contact with its times and its lower node first, a self-contact none, row by row |
| Orders.SortSorts | crates/murmuration-routing/src/trace.rs:79 | the sort used for contacts, peers and messages sorts by its key, permutes, and is stable |
| ContactTraces.PairContacts | crates/murmuration-routing/src/trace.rs:111-124 | the loop ends for all draws; each contact of a pair starts one drawn gap after the one before ended and lasts for its drawn length or until the end of the trace, and the contacts stop only when the next would start too late; so they run forward, within the trace and strictly apart |
| ContactTraces.Synthetic | crates/murmuration-routing/src/trace.rs:92-129 | with a mean contact length that is not negative, every synthetic trace is sorted, canonical, within its duration, and runs forward; the pairs whose draw is below the given probability have exactly their meetings in it, in order, and no other pair has any |
| ContactTraces.EarliestArrival | crates/murmuration-routing/src/trace.rs:141-165 | the in-place relaxation loop computes the scan whose meaning the lemmas below give, skipping and snapshotting as the code does |
| Journeys.PrefixExact | crates/murmuration-routing/src/trace.rs:141-165 | for every contact list and prefix, each entry is the least arrival over journeys with increasing contact indices, and infinite exactly when there is none |
| Journeys.ScanIsRealised | crates/murmuration-routing/src/trace.rs:150-161 | every finite entry is the arrival of an explicit journey |
| Journeys.ScanIsLowerBound | crates/murmuration-routing/src/trace.rs:145-161 | no journey in index order arrives before the scan's entry |
| Journeys.ScanAfterCreation | crates/murmuration-routing/src/trace.rs:145-147 | no arrival precedes the creation time, which is why expired contacts may be skipped |
| Journeys.LeastIsUnique | crates/murmuration-routing/src/trace.rs:131-141 | the least-arrival property determines the entry |
| Journeys.Fifo | crates/murmuration-routing/src/trace.rs:141-165 | a later creation time never gives an earlier arrival at any node |
| Journeys.InsertingNeverDelays | crates/murmuration-routing/src/trace.rs:141-165 | inserting contacts anywhere in the list never makes any arrival later |
| Foremost.ExactIffStable | crates/murmuration-routing/src/trace.rs:131-165 | for any list, source and time, the scan equals the foremost arrival over all journeys at every node if and only if a second pass would change nothing |
| Foremost.ExactIffSnapshotsOrdered | crates/murmuration-routing/src/trace.rs:131-165 | a sorted trace is scanned exactly from every source and time if and only if nodes connected by contacts open at one instant are connected by such contacts in index order |
| Foremost.Reorder | crates/murmuration-routing/src/trace.rs:136-141 | under that condition every journey has an index-ordered counterpart arriving no later |
| Foremost.ExactWithoutOverlap | crates/murmuration-routing/src/trace.rs:131-165 | if contacts sharing a node never overlap, the scan is the foremost arrival over all time-respecting journeys |
| Foremost.CutBackAndForth | crates/murmuration-routing/src/trace.rs:148-150 | riding one contact twice in a row can be cut out of any journey without arriving later |
| Foremost.SnapshotIsOneHop | crates/murmuration-routing/src/trace.rs:148-150 | without overlaps, nodes connected at one instant are connected by one contact |
| Foremost.TwoContactsExactIffDisjoint | crates/murmuration-routing/src/trace.rs:131-165 | for two contacts in a row the scan is exact for every start if and only if they do not overlap |
| Foremost.OverlapCounterexample | crates/murmuration-routing/src/trace.rs:131-165 | a concrete trace on which a node reachable at time 10 is reported unreachable |
| Delivery.DeliveryOrder | core/src/bin/trace_bench.rs:112-267 | oracle, epidemic, PRoPHET, direct: each delivers every message no later than the next, for every deadline and predictability history |
| Delivery.OracleMeaning | core/src/bin/trace_bench.rs:112-127 | the oracle delivers a message exactly when some journey in index order arrives within the deadline, and then at the least arrival of all |
| Delivery.TransmissionOrder | core/src/bin/trace_bench.rs:136-163 | each scheme sends one copy per holder beyond the source; direct sends at most one, no more than PRoPHET, no more than epidemic, at most n-1 |
| Delivery.EpidemicDominatesProphet | core/src/bin/trace_bench.rs:147-162 | after every contact epidemic's holders include PRoPHET's and it has delivered no later |
| Delivery.ProphetDominatesDirect | core/src/bin/trace_bench.rs:240-256 | after every contact PRoPHET's holders include direct's and it has delivered no later |
| Delivery.SchemesConserve | core/src/bin/trace_bench.rs:136-163 | transmissions plus one equal holders, and the destination holds a copy exactly when delivery was recorded |
| Delivery.OneContactBoundIffForward | crates/murmuration-routing/src/trace.rs:64-74 | for one contact the oracle bounds epidemic delivery for all messages if and only if the interval does not end before it starts |
| Backwards.OracleBoundsIffBackwardCrossed | core/src/bin/trace_bench.rs:112-169 | on every sorted trace, if the oracle bounds epidemic for all messages and deadlines, contacts open at the start of each backward contact connect its ends in index order; where the scan is exact the converse holds too |
| Backwards.CrossingIsNotEnough | core/src/bin/trace_bench.rs:112-169 | where the scan is not exact the converse fails, on a concrete trace |
| Carriage.DeliversEarliest | core/src/bin/trace_bench.rs:129-267 | every copying scheme delivers exactly when a copy can be carried to the destination under its rule, at the least such time |
| Carriage.HoldersAreCarried | core/src/bin/trace_bench.rs:136-162 | until delivery, and for epidemic always, the holders are exactly the nodes a copy can be carried to |
| Predictability.PredictabilitiesInUnit | core/src/bin/trace_bench.rs:196-229 | over every run all predictabilities stay in [0,1] |
| Predictability.MeetingIsRemembered | core/src/bin/trace_bench.rs:216-229 | after a meeting both sides rate each other at least 0.75 and no third row has changed |
| Predictability.ContactEntries | core/src/bin/trace_bench.rs:196-229 | every entry after one contact: both rows age by 0.98 per whole hour, each side moves three quarters of the way to certainty about the other, and each learns about every third node through the other, the second from what the first has just learned; nothing else changes |
| Predictability.PositiveIffHeardOf | core/src/bin/trace_bench.rs:196-229 | over every run a node rates another above 0 if and only if contacts in index order have led from that other node to it |
| Predictability.RatedAtContact | core/src/bin/trace_bench.rs:216-246 | the ratings a contact relays by already include that contact |
| TraceBench.RunOracle | core/src/bin/trace_bench.rs:112-127 | the delivered messages are exactly those that can arrive within the deadline, their delays add up to at most the deadline each, and every message counts one transmission |
| TraceBench.ReplicateOne | core/src/bin/trace_bench.rs:136-168 | with its early exits the loop yields the outcome and cost of the full epidemic or direct scheme |
| TraceBench.RunReplication | core/src/bin/trace_bench.rs:131-170 | the run tallies exactly the per-message outcomes |
| TraceBench.StoppedEarly | core/src/bin/trace_bench.rs:144-160 | breaking off past the deadline or at first direct delivery loses nothing |
| TraceBench.RunsAreOrdered | core/src/bin/trace_bench.rs:305-310 | for every message list the four delivered counts fall from oracle to epidemic to PRoPHET to direct, and transmissions from epidemic on |
| TraceBench.TallyCounts | core/src/bin/trace_bench.rs:164-167 | the delivered statistic is the number of delivered messages |
| TraceBench.TallyAdds | core/src/bin/trace_bench.rs:164-167 | deliveries, delays and transmissions add up over messages |
| TraceBench.TallyOfOne | core/src/bin/trace_bench.rs:164-167 | a delivered message counts once, with its delay since creation; an undelivered one only its transmissions |
| ProphetRun.UpdateTables | core/src/bin/trace_bench.rs:196-229 | the in-place ageing, encounter and transitivity updates compute the predictability recurrence |
| ProphetRun.Inject | core/src/bin/trace_bench.rs:191-214 | after injection exactly the messages created by now have their source flagged |
| ProphetRun.ForwardAll | core/src/bin/trace_bench.rs:232-257 | one contact advances every live message by one scheme step and counts its transmissions |
| ProphetRun.RunProphet | core/src/bin/trace_bench.rs:177-267 | simulating all messages together yields exactly the tally of the per-message scheme |
| Networks.Simplify | core/src/bin/benchmark.rs:242-243 | every walk can be made simple, with at most n nodes, without lowering its product |
| OracleValues.ComputeOracleValues | core/src/bin/benchmark.rs:244-267 | the in-place sweeps with early exit return what all n sweeps would |
| OracleValues.NearOptimal | core/src/bin/benchmark.rs:242-267 | each value is 0 or the product along a real walk, and no walk of any length exceeds it by more than n-1 tolerances |
| OracleValues.WalkIsMatched | core/src/bin/benchmark.rs:247-261 | after k sweeps no walk of at most k hops is ahead by more than one tolerance per hop |
| OracleValues.StopEarly | core/src/bin/benchmark.rs:262-264 | once a sweep changes nothing neither do the rest |
| OracleValues.SweepsAreSupported | core/src/bin/benchmark.rs:247-261 | after any number of sweeps every positive value away from the destination is no more than some neighbour currently offers |
| OracleValues.SweepsConverge | core/src/bin/benchmark.rs:242-264 | for every valid network and tolerance the n-th sweep changes nothing, so n-1 sweeps reach the fixed point |
| OracleValues.ChangeHasChain | core/src/bin/benchmark.rs:247-261 | a change in one sweep ends a chain of as many changes, at distinct nodes other than the destination |
| Regret.Bellman | core/src/bin/benchmark.rs:27-35 | for every tolerance each value is at most its best continuation, which is at most one tolerance above it |
| Regret.RegretBounds | core/src/bin/benchmark.rs:518-520 | raw regret lies between minus one tolerance and 1; without a tolerance the clamp at zero is inert |
| Regret.RegretIsShortfall | core/src/bin/benchmark.rs:517-525 | for every hop sequence to the destination, the value of its start minus its product is the sum of regrets weighted by the probability of reaching each hop |
| Regret.GreedyGivesUpNothing | core/src/bin/benchmark.rs:438-456 | for every tolerance the hop chosen at a node of positive value is charged nothing, strictly raises the value and is best among all neighbours, so the visited filter hides nothing better |
| Regret.GreedyHopIsFree | core/src/bin/benchmark.rs:517-525 | the hop chosen at any node of an oracle trip, of positive value or not, is charged nothing, and values keep climbing once positive |
| Regret.CandidatesKeepOrder | core/src/bin/benchmark.rs:438-443 | the candidates are the unvisited neighbours in stored order |
| Regret.GreedyIsNearBest | core/src/bin/benchmark.rs:437-456 | for every tolerance and source, a greedy walk that reaches the destination is no worse than the value and within n-1 tolerances of every walk, and equals the value without a tolerance; from any node of positive value it does reach it, within n-1 hops and without repeats |
| Benchmark.PickNext | core/src/bin/benchmark.rs:447-515 | the choice is an unvisited neighbour; the oracle arm, and Q-routing when its coin is not below epsilon, take the last of the best ones |
| Benchmark.Decide | core/src/bin/benchmark.rs:517-563 | one decision charges the clamped regret, counts a transmission, survives exactly when its draw is below the link quality and, for Q-routing, learns from the neighbour's advertisement |
| Benchmark.RouteUnicast | core/src/bin/benchmark.rs:419-581 | the trip is a repeat-free walk of at most 12 hops that stops only on loss, arrival, the hop limit or a dead end; hops survive exactly when their draws say so; the outcome and the tables change by exactly what the trip records |
| Benchmark.TripSplits | core/src/bin/benchmark.rs:517-534 | charges and latency of a trip are sums over its parts |
| Benchmark.HopCosts | core/src/bin/benchmark.rs:517-534 | one hop takes the latency of its link and is charged what it gives up of the value, never less than nothing |
| Benchmark.OracleTrip | core/src/bin/benchmark.rs:437-456 | for every tolerance and every source an oracle trip is charged nothing, whatever is lost; a trip that arrives is within n-1 tolerances of the best walk; from a source of positive value one that is not lost stops only at the destination or the hop limit, and arrives when n-1 hops fit the limit |
| Benchmark.Run | core/src/bin/benchmark.rs:624-660 | over every list of messages the totals are consistent, the oracle arm ends with a regret of exactly 0 on every network of lossy links, and Q-routing's tables are those of its decisions in order |
| Generate.RandomEdges | core/src/bin/benchmark.rs:170-184 | two nodes are linked exactly when their draw is below the link probability, all of them at probability 1 and none at 0; the graph is symmetric, without self-loops or parallel edges |
| Generate.Shuffle | core/src/bin/benchmark.rs:186-190 | for all draws the result is a permutation, the one the draws pick |
| Generate.EveryOrderCanComeOut | core/src/bin/benchmark.rs:186-190 | every order of the nodes is the result for some draws |
| Generate.SpanningTree | core/src/bin/benchmark.rs:191-195 | attaching each shuffled node to an earlier one connects the graph, keeps its edges and adds no others |
| Generate.LabelEdges | core/src/bin/benchmark.rs:197-214 | labels lie in range and agree in both directions |
| Generate.GenerateNetwork | core/src/bin/benchmark.rs:169-223 | always a simple connected graph with exactly its edges labelled, in which two nodes are linked exactly when their draw says so or the tree joins them |
| Optima.GeneratedOptimumIsPositive | core/src/bin/benchmark.rs:167-267 | while the tolerance is below 0.35 to the power n-1, every value in a generated network is at least that power, with no slack |
| Optima.GeneratedIsNearWorst | core/src/bin/benchmark.rs:167-267 | for every tolerance every value is at most n-1 tolerances below that power |
| Optima.ChainHidesNodes | core/src/bin/benchmark.rs:169-267 | on the generated chain of worst links, a node so far away that the power of its distance is within the tolerance is given the value 0 although a walk leads to the destination |
| Optima.EverybodyFindsAWayIff | core/src/bin/benchmark.rs:169-267 | all values in all generated networks of n nodes are positive if and only if the tolerance is below 0.35 to the power n-1 |
| Optima.ShippedToleranceIff | core/src/bin/benchmark.rs:257-258 | the shipped tolerance meets that condition for at most 27 nodes, and for no more |
| Optima.AllExactIff | core/src/bin/benchmark.rs:242-258 | for n of 3 or more, no walk exceeds a value in any generated network of n nodes if and only if there is no tolerance at all |
| Optima.GeneratedTripArrives | core/src/bin/benchmark.rs:425-456 | at the shipped tolerance, in generated networks that fit the hop limit, every oracle trip that is not lost arrives, uncharged, within n-1 tolerances of the best walk |
| Optima.EverybodyArrivesIff | core/src/bin/benchmark.rs:425-456 | at the shipped tolerance every oracle trip in every generated network of n nodes arrives, unless lost, if and only if n-1 hops fit the limit |
| QRouting.NameRoundTrip | core/src/bin/benchmark.rs:295-301 | parsing a node's name gives back its number |
| QRouting.BlendInUnit | core/src/bin/benchmark.rs:396-400 | updates keep estimates in [0,1] |
| QRouting.LearnIsLocal | crates/murmuration-routing/src/router.rs:154-160 | an update moves its own pair by one blend and no other pair |
| QRouting.GapShrinks | crates/murmuration-routing/src/router.rs:617-632 | under a repeated target the distance to it falls geometrically by 1 - alpha |
| QRouting.UnseenTiesIffPerfect | crates/murmuration-routing/src/router.rs:579-582 | an untried pair scores at least as high as a tried one, and ties exactly when every outcome was perfect |
| QRouting.QRoutingState.BestOver | crates/murmuration-routing/src/router.rs:145-152 | the advertised value is at least 0 and the estimate of every neighbour, and is 0 or one of them |
| QRouting.QRoutingState.Record | crates/murmuration-routing/src/router.rs:623-632 | a success bootstraps from the downstream value, a failure from 0 |
| QRouting.QTables.Best | core/src/bin/benchmark.rs:384-394 | a node advertises certainty for itself; otherwise at least 0 and every neighbour's estimate, and 0 or one of them |
| QRouting.BestIsMaximum | crates/murmuration-routing/src/router.rs:145-152 | the fold over the neighbours is the maximum of their estimates and 0 |
| QRouting.QTables.Update | core/src/bin/benchmark.rs:396-400 | one table learns, the others are unchanged |
| QRouting.TablesMatchRouters | core/src/bin/benchmark.rs:551-561 | over every run of decisions the benchmark's tables and one router state per node hold the same estimates, all in [0,1], and advertise the same values even at the destination |
| Generate.GeneratedNobodyIsolated | core/src/bin/benchmark.rs:191-195 | generated networks meet the hypothesis of that agreement |
| Router.SelectionIsBest | crates/murmuration-routing/src/router.rs:451-489 | a selection is distinct eligible peers, as many as allowed, none outscored by an eligible peer left out |
| Router.HandleMeaning | core/src/node.rs:2158-2290 | exactly when a message is processed, delivered, and sent to a given peer |
| Router.HandleSends | core/src/node.rs:2279-2411 | at most three copies leave, each with one hop less and this node on its path, to connected peers other than the originator and the path |
| Router.OriginateMeaning | core/src/node.rs:2449-2510 | sending fails exactly when nobody is active or the recipient is not; otherwise a copy goes to a peer exactly when the peer is active and the message is for everyone or for it, one each, fresh and alike |
| Router.AcknowledgesIff | core/src/node.rs:2258-2272 | a neighbour is acknowledged exactly when its message was processed, was for this node alone, and the neighbour can be reached |
| Router.RecordsMean | core/src/node.rs:2190-2256 | what the inbox shows of an incoming message, with or without a packet inside, and of a sent one |
| Router.MeshNode.ShouldProcess | crates/murmuration-routing/src/router.rs:319-343 | the checks in their order accept exactly live, new, loop-free messages |
| Router.MeshNode.MarkSeen | crates/murmuration-routing/src/router.rs:346-352 | the id is stamped and only entries of five minutes or more are dropped |
| Router.MeshNode.HandleMeshMessage | core/src/node.rs:2158-2414 | the handler's new seen map, inbox record, acknowledgement and copies are those of the specification |
| Router.MeshNode.SendMeshMessage | core/src/node.rs:2417-2519 | a directed message goes only to a connected recipient, a broadcast to every active peer, and either is recorded in the sender's inbox; otherwise an error and no record |
| Mesh.CopiesStayGood | core/src/node.rs:2158-2414 | in every reachable state each copy in flight has hop count plus path length 10, a repeat-free path without originator and receiver that follows links used, and its original content |
| Mesh.LoopCheckNeverFires | crates/murmuration-routing/src/router.rs:336-340 | so the loop check never rejects, no originator receives its own message, and directed copies are only handed to their recipient |
| Mesh.EveryPeerIsSentACopy | core/src/node.rs:2449-2510 | sending puts a copy in flight to every peer the message is for, and to nobody else |
| Mesh.RecordShowsWhatWasSent | core/src/node.rs:2175-2256 | with an invertible packet codec, a copy of any message in any reachable state is recorded with its originator, its address and exactly the payload sent |
| MeshBounds.ReceiveLowersPotential | core/src/node.rs:2282-2290 | handling a copy lowers the weighted sum of hop counts, whatever the seen maps say |
| MeshBounds.SendTerminates | core/src/node.rs:2158-2414 | over every run, whatever other messages are under way, the copies of one message are handled at most 88573 times per first hop of that message, counting what is still in flight, without relying on deduplication |
| MeshBounds.RunsTerminate | core/src/node.rs:2158-2414 | every run handles at most 88573 copies per first hop |
| MeshBounds.ProcessingsAreFarApart | crates/murmuration-routing/src/router.rs:326-352 | with atomic handlers a node processes one id only at times a minute or more apart; the cleanup never drops an entry the check needs |
| Handlers.CheckThenMarkIsHandle | core/src/node.rs:2160-2166 | a check followed at once by its marking is the atomic handler of the mesh model |
| Handlers.AloneIsFarApart | core/src/node.rs:2160-2166 | with check and marking as separate steps processings stay a minute apart while no two handlers of one id are between them |
| Handlers.FarApartIffNeverTwiceWaiting | core/src/node.rs:2160-2166 | and only then: deduplication survives a schedule, wherever it is cut off and two waiting handlers go ahead, if and only if no id ever waits twice |
| Handlers.TwoCopiesBothPass | core/src/node.rs:2160-2166 | two copies of a live message checked before either is marked are both processed |
| MeshBounds.CopiesWithinTheWindow | core/src/node.rs:2160-2414 | within a minute each node but the originator processes a message at most once, and at most fan-out plus 3(n-1) copies are made |
| Learning.AverageIsMean | crates/murmuration-routing/src/router.rs:261-267 | selections count a peer's rewards and average times selections is their sum |
| Learning.TotalIsSum | crates/murmuration-routing/src/router.rs:230-235 | the total is the sum of selections over peers |
| Learning.RewardsMatchHistory | crates/murmuration-routing/src/router.rs:637-682 | selections are successes plus failures and the summed reward lies between half the successes and the successes |
| Learning.RewardMeaning | crates/murmuration-routing/src/router.rs:655-657 | a failure pays 0; a success pays 1 without latency, 0.5 from a quarter second on, and 1 - 2l in between |
| Learning.PaidByLatency | crates/murmuration-routing/src/router.rs:637-682 | a peer is paid once per outcome, by its latencies alone, in general and toward each destination |
| Learning.FasterPeerIsRatedHigher | crates/murmuration-routing/src/router.rs:261-267 | of two peers with as many outcomes the one that was no slower each time has at least the average |
| Learning.HistoryIsRecord | crates/murmuration-routing/src/router.rs:637-682 | a peer's history counts its own successes and failures and sums the latencies of its successes, one sample each |
| Learning.DestinationsAreSeparate | crates/murmuration-routing/src/router.rs:548-567 | per-destination records leave the general bandit and history unchanged and see only their own outcomes |
| Learning.LearnedLaws | crates/murmuration-routing/src/router.rs:203-212 | after any mix of outcomes all of these hold together and averages lie in [0,1] |
| Learning.LearnedState.RecordRoute | crates/murmuration-routing/src/router.rs:637-682 | one more outcome in the general bandit and history, destinations untouched |
| Learning.LearnedState.RecordToward | crates/murmuration-routing/src/router.rs:548-567 | one more outcome for one destination, everything else untouched |
| Inbox.InboxState.Push | core/src/node.rs:273-287 | the inbox holds the newest 500 messages, numbered in order |
| Inbox.InboxState.List | core/src/node.rs:303-315 | the newest records after the given number, up to the limit, and where to continue |
| Inbox.PollLosesNothingIff | core/src/node.rs:303-315 | one poll misses nothing if and only if what arrived since the given number fits: at most 500, and at most the limit or a single record |
| Inbox.PollingLosesNothingIff | core/src/node.rs:303-315 | over every sequence of pushes and polls a client that continues where it ended gets messages in order and at most once, and all of them if and only if what arrives between two polls fits |
| Stun.AddressRoundTrip | core/src/nat/stun.rs:183-217 | both address decoders invert their encodings for every IPv4 address and port |
| Stun.ParseBindingResponse | core/src/nat/stun.rs:123-177 | on arbitrary octets the loop ends without reading out of bounds and finds what the specification finds |
| Stun.ResponseRejections | core/src/nat/stun.rs:124-143 | exactly which responses are rejected before their attributes are read, and how: short, wrong type, wrong cookie, foreign transaction id |
| Stun.SampleAddress | core/src/nat/stun.rs:183-217 | the sample response of RFC 5769, section 2.2, decodes to its documented address |
| Stun.ResponseRoundTrip | core/src/nat/stun.rs:145-177 | for every attribute list, padding and trailer, parsing returns the decoding of the first address attribute |
| Stun.ReportedAddressIsLearned | core/src/nat/stun.rs:123-201 | the address a server reports first, by attribute 0x0020 or 0x0001, is the address the client learns; without any the client learns that there was none |
| Stun.BuildBindingRequest | core/src/nat/stun.rs:109-120 | the request is type 0x0001, zero length, cookie and transaction id, octet for octet |
| Bytes.XorBits | core/src/nat/stun.rs:183-201 | exclusive or acts bit by bit |
| Bytes.BigEndian | core/src/nat/stun.rs:109-120 | words are written most significant octet first |
| Framing.PaddedLengthIsLeast | core/src/p2p/encryption.rs:25-29 | the padded length is the least multiple of 256 with room for prefix and data |
| Framing.PadLayout | core/src/p2p/encryption.rs:25-40 | on the wire the length comes first, most significant octet first, then the data |
| Framing.CutShort | core/src/p2p/encryption.rs:42-53 | a padded message cut before its fill cannot be unpadded |
| Framing.PadMessage | core/src/p2p/encryption.rs:25-40 | prefix, data and random fill, of the padded length it computes; unpadding gives back what the prefix can count |
| Framing.UnpadPad | core/src/p2p/encryption.rs:25-53 | unpadding recovers the data if and only if it is shorter than 65536 octets; otherwise a wrapped prefix of it |
| Framing.FrameRoundTrip | core/src/p2p/protocol.rs:190-254 | plain and encrypted frames read back as themselves whatever follows, and split into nonce and ciphertext |
| Framing.FrameLayout | core/src/p2p/protocol.rs:190-235 | an encrypted frame is its length, most significant octet first, the nonce, and the ciphertext |
| Framing.PartialFrame | core/src/p2p/protocol.rs:205-254 | no part of a frame is taken for a frame, and what cannot hold a nonce not for an encrypted one |
| Framing.OpenFallsBack | core/src/node.rs:1523-1566 | what is taken when there is no key, the payload is short, decryption fails, or the result is not padded |
| Framing.ReadStream | core/src/node.rs:1456-1572 | the read loop takes the message of every complete frame, decrypting and unpadding as far as it can, up to the first payload that is no message or the first message that closes the connection, and reports which |
| Framing.StreamRoundTrip | core/src/node.rs:1888-1924 | messages sent under equal keys, or none, read back as themselves for every fill and nonce if and only if none but the last closes the connection, and there is no key or every payload is shorter than 65536 octets |

## Left out

- Text parsing of trace files: a line is given by its number of cells and what they parse to; times that are not numbers, on which the sort would panic, are not modelled.
- ContactTraces.Synthetic: takes a positive duration, because the power law has no range otherwise, and a mean contact length that is not negative, because with a negative one the lengths drawn are negative and unbounded, so contacts end before they start and the loop need not end.
- The distributions of `synthetic`, the power-law sampler and the Zipf destination samplers: draws are arbitrary within range.
- `mean_inter_contact`, delays averaged over messages, confidence intervals and CSV output: summaries without a law of their own.
- The flooding strategy: its hop counts are read from entries that may change within the same round.
- The heuristic and UCB1 arms inside `route_unicast`: they appear as an arm that picks any candidate; the learning curve samples and noisy ping estimates are not modelled.
- Peer scores: the heuristic and the UCB1 formula are an arbitrary function of the peer, so the claim that unvisited peers are always tried first is not made.
- Persistence of learned state, `message_cache`, and the wrap of 32-bit success counters.
- MeshBounds.ProcessingsAreFarApart: assumes check and marking as one step, because with the two separate locks two copies handled at once can both pass the check; Handlers.FarApartIffNeverTwiceWaiting gives the exact condition at one node.
- Delivery.DeliveryOrder: assumes intervals that run forward and a message to somebody else, as the generators guarantee; a loaded trace is not checked for the former.
- Inbox.PollLosesNothingIff: covers at most 2^64-1 messages and pushes that do not interleave, because the counter saturates and is taken before the queue lock.
- The second inbox record the `Data` arm pushes; previews, sizes, timestamps and conversation ids of inbox records; events and logging. Packets are read and shown by functions that are parameters.
- Connection lifecycle, heartbeats and content requests in `handle_connection`; sockets, discovery, relays and stores.
- Cryptography: the cipher is any pair of functions of which one inverts the other; the fallback to a plain frame when encryption fails is not modelled.
- JSON: payloads are octets. The per-mille quantisation of advertised values is not modelled.
- Ipv6 addresses, which the STUN client rejects, and the request's transport.
