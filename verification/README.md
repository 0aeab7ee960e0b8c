# Open Interest Clusters: a Dafny model

This project models the parts of the recommendation library whose correctness depends on state, order or
exact text, and proves what they promise. Each module belongs to one source file; classes follow the objects
whose methods change state, loops are methods proved against specification functions, and runs of concurrent or
crashing code are step systems whose histories are quantified over.

| Modules | What they model |
|---|---|
| SignalLedger, Engine, EngineOrchestrators | the event ledger, and the per-subject engine over a durable state store, with caches, restarts and a permanent deletion barrier |
| DerivedState, DerivedStateOrchestrators | the crash-safe protocol that invalidates derived state after a profile change and drives deletions to their end |
| SerializedQueue | the promise-chain lock both orchestrators use |
| CooccurrenceGraphs, CooccurrenceLaws, Iteration, Propagation, Louvain, Chains | the capped co-occurrence graph with its snapshots, and community detection by in-place label propagation |
| Decimal, OutboxCursor, PublicOutbox, CanonicalSource | resumable paging over a public outbox and over canonical events |
| Calendar, Timestamps, LabelerRegistry | the order on RFC 3339 timestamps (sections 5.6 and 5.7), leap seconds included, and the registry that keeps the latest observation |
| JsonText, CanonicalJson, EmbeddingText, EmbeddingFreshness, AnnSnapshot | canonical JSON text, what a parser reads back from it, and the digests and snapshots that rely on it |
| Catalogs, CatalogIndexes, CatalogEntities, CatalogFacts | the catalog's linear scans and the index that must agree with them |
| ProviderFailover | circuits, selection, retries, fallback and the event ring of the ANN provider orchestrator |
| WorkerPool | workers that share a claim counter |
| CsvScanners, Base64 | two hand-written CSV scan loops (section 2 of RFC 4180) and the Base64 encoder (section 4 of RFC 4648) |
| Options | the usual option type |

In the two orchestrators every await ends in one of three ways: it takes effect and reports it, it fails without
effect, or it takes effect and the report is lost. A crash is a failure after which the in-memory maps are empty.

## Results that are not what one might expect

- The engine alone can lose events or its deletion barrier. If a save is applied but reported as failed while the
  subject is cached, the next successful save writes the old cache over it (`Engine.LostAcknowledgementLosesEvents`,
  `Engine.AnEventCanBeLost`, `Engine.LostAcknowledgementUnseals`). Without such a loss the stored events only grow,
  over every run without deletions (`Engine.StoredEventsOnlyGrow`). The barrier is safe over every run exactly if the cache is empty or holds it too (`Engine.BarrierHoldsExactly`).
  Under the invalidation protocol, which repeats a deletion before anything else, it is always safe
  (`DerivedState.ProtocolKeepsTheBarrier`).
- `runLouvain` ends exactly for graphs in which no cycle of heaviest neighbours has two nodes whose choice comes
  later in the node order (`Propagation.RestExactly`). Symmetric graphs with pairwise distinct weights are of
  that kind; a directed ring of three, and a triangle of equal weights, are not (`Louvain.RingNeverRests`).
- Trimming within the first half of an edge insertion can leave a one-way edge (`CooccurrenceGraphs.OneWayEdgesArise`).
  From a symmetric graph it does so exactly if the pair is new, its first name already has as many edges as allowed,
  all of them heavier than a new one, and its second name has not (`CooccurrenceGraphs.PairKeepsSymmetryExactly`).
- Deleting a node leaves the edges to it that have no edge back. All edges to it go exactly if each had one
  (`CooccurrenceGraphs.DeleteRemovesEdgesExactly`, `CooccurrenceGraphs.DeletedNodeIsStillListed`).
- An outbox cursor does not survive encoding and decoding if the page's path starts with two slashes, or if its
  query is present but empty (`OutboxCursor.CursorRoundTrip`).
- An ANN snapshot comes back from its text exactly if nothing in its configuration is undefined or a number that
  JSON cannot write. An undefined field makes the text unreadable; an array that holds only undefined comes back
  empty (`AnnSnapshot.SnapshotRoundTrip`, `CanonicalJson.ParsesAs`).
- The catalog index and the linear scan can find different tags for an ambiguous token: exactly when no tag comes
  first both in the locale order and in the code-unit order of ids among the most specific carriers
  (`CatalogIndexes.IndexAgreesWithScan`, `CatalogIndexes.ScanAndIndexDiffer`).
- The row limit of the domain-block scanner does not count an unterminated last row
  (`CsvScanners.RowLimitCountsLineEnds`). The two scanners agree on a text exactly if no quote stands in a field that
  began without one, or both refuse the text (`CsvScanners.AgreeExactly`).
- In the ANN provider orchestrator a throwing event listener counts as a failure of the provider. If it throws on the
  recovery of the selected provider, an operation that has succeeded is run again on another one
  (src/ann/orchestrator.ts:413-417). That can happen exactly if the call goes on after failures, the first candidate it
  looks at has failures that no health check clears first, and there is a candidate of another name
  (`ProviderFailover.RepeatsExactly`). With health checks before selection, the default, it never
  happens, and never does an operation succeed three times.

## Model

| member | source | states |
|---|---|---|
| `DerivedState.DerivedStateFollowsTheProfile` | src/recommendation/derived-state-invalidation-orchestrator.ts:371-464 | In every legal history, with any await failing before or after its effect: while a derived-phase task is stored, every target outside its pending list was last invalidated with the task's digest; with a checkpoint and no task, every target was last invalidated with the checkpoint's digest |
| `DerivedState.StoredTasksAdvance` | src/recommendation/derived-state-invalidation-orchestrator.ts:371-441 | A stored task is only overwritten by its own successor: same reason, digest and intent, strictly smaller rank (engine phase, then number of pending targets) |
| `DerivedState.StoredTaskIsWellFormed` | src/recommendation/derived-state-invalidation-orchestrator.ts:205-231 | A stored task never lists a target twice, and a task waiting for the engine is a deletion that carries its intent |
| `DerivedState.DeletionOpenOrDone` | src/recommendation/derived-state-invalidation-orchestrator.ts:407-428 | From the moment a deletion task is stored, the history either still holds its task (or its engine deletion with targets left) or has the engine deletion followed by an invalidation of all three targets |
| `DerivedState.NothingStartsBeforeDeletionIsDone` | src/recommendation/derived-state-invalidation-orchestrator.ts:467-535 | Once a deletion task is stored, no later engine work for that subject starts before the engine deletion succeeded and all three targets were invalidated after it |
| `DerivedState.ProtocolFinishesDeletions` | src/recommendation/derived-state-invalidation-orchestrator.ts:407-441 | Whatever crashes, the engine calls of a legal history finish an unreported deletion by another deletion before any other engine work |
| `DerivedState.ProtocolKeepsTheBarrier` | src/recommendation/derived-state-invalidation-orchestrator.ts:467-535 | So under this protocol an engine barrier that was ever stored is never lost: every later process, synchronize and ledger read is refused, even after lost acknowledgements |
| `DerivedState.FinishedTask` | src/recommendation/derived-state-invalidation-orchestrator.ts:371-428 | The effects of finishing a stored task invalidate each of its targets with its digest; if the engine had still to delete, that call comes first, with the requested time, and all three targets after it |
| `DerivedStateOrchestrators.DerivedStateOrchestrator.SaveTask` | src/recommendation/derived-state-invalidation-orchestrator.ts:233-247 | The await may fail before or after storing; it succeeds only if the task is stored, and every failure is counted |
| `DerivedStateOrchestrators.DerivedStateOrchestrator.DrainTarget` | src/recommendation/derived-state-invalidation-orchestrator.ts:378-396 | One target is invalidated with the task's digest before the task without that target is stored |
| `DerivedStateOrchestrators.DerivedStateOrchestrator.Settle` | src/recommendation/derived-state-invalidation-orchestrator.ts:399-404 | With nothing pending the checkpoint is settled (dropped for a deletion, else set to the digest) and then the task is forgotten |
| `DerivedStateOrchestrators.DerivedStateOrchestrator.DrainDerived` | src/recommendation/derived-state-invalidation-orchestrator.ts:371-405 | Returns exactly the pending targets in order, with the task gone and the checkpoint settled; the effects are exactly an invalidation and a store for each target, then the settling; throws only if an await failed |
| `DerivedStateOrchestrators.DerivedStateOrchestrator.DrainPending` | src/recommendation/derived-state-invalidation-orchestrator.ts:375-396 | The loop: each pending target in order is invalidated and then the shorter task stored |
| `DerivedStateOrchestrators.DerivedStateOrchestrator.DeleteInEngine` | src/recommendation/derived-state-invalidation-orchestrator.ts:415-422 | The deletion, and then a stored task with all targets pending |
| `DerivedStateOrchestrators.DerivedStateOrchestrator.EngineDelete` | src/recommendation/derived-state-invalidation-orchestrator.ts:414-416 | The engine deletion runs only while the task waits for it; on success the one new effect is an acknowledged deletion with the time of the intent |
| `DerivedStateOrchestrators.DerivedStateOrchestrator.ResumeTask` | src/recommendation/derived-state-invalidation-orchestrator.ts:407-428 | Runs the engine deletion if the task still waits for it, then drains; reports all targets exactly in that case; the effects are exactly those of finishing the task |
| `DerivedStateOrchestrators.DerivedStateOrchestrator.RecoverPending` | src/recommendation/derived-state-invalidation-orchestrator.ts:430-441 | Without a failing await recovery always succeeds, and afterwards nothing is pending and the checkpoint belongs to the recovered task; with a task stored before, it reports a change, the digest and reason of that task, and its pending targets, all three if the engine had still to delete; each of them was invalidated with that digest during the call |
| `DerivedStateOrchestrators.DerivedStateOrchestrator.EnsureCurrentProfilePropagated` | src/recommendation/derived-state-invalidation-orchestrator.ts:443-464 | Afterwards the checkpoint is the given digest; it reports no change exactly when the checkpoint already was that digest, and otherwise all targets, each invalidated with the digest during the call |
| `DerivedStateOrchestrators.DerivedStateOrchestrator.Process` | src/recommendation/derived-state-invalidation-orchestrator.ts:467-479 | When it returns, the engine was asked after recovery to process exactly these events, and checkpoint and all three targets carry the digest of the profile it answered with; a retraction among the events decides the reason; a change is reported exactly if the answered digest is not the one settled before, by the checkpoint or by the task that was pending; what it reports was invalidated with that digest after the question, and what was pending before it |
| `DerivedStateOrchestrators.DerivedStateOrchestrator.Synchronize` | src/recommendation/derived-state-invalidation-orchestrator.ts:481-493 | The same for synchronize, with the reason that signals expired |
| `DerivedStateOrchestrators.DerivedStateOrchestrator.Repair` | src/recommendation/derived-state-invalidation-orchestrator.ts:495-510 | With a task stored it finishes it and reports a change, its digest and reason, and its pending targets, all three if the engine had still to delete, each invalidated with that digest during the call; with none stored it propagates the profile read from the engine, and reports a change exactly if the checkpoint was another |
| `DerivedStateOrchestrators.DerivedStateOrchestrator.StartDeletion` | src/recommendation/derived-state-invalidation-orchestrator.ts:516-529 | The intent is stored first, the engine is asked next to delete as of the time of the intent, and then all three targets are invalidated with its digest; neither task nor checkpoint is left |
| `DerivedStateOrchestrators.DerivedStateOrchestrator.DeleteSubject` | src/recommendation/derived-state-invalidation-orchestrator.ts:512-535 | When it returns, an intent with the requested time was stored, the engine was asked next to delete as of that time and did, all three targets were invalidated after that with the digest read before, and neither task nor checkpoint is left |
| `SerializedQueue.InvAlways` | src/recommendation/engine-orchestrator.ts:222-236 | Every state reachable by entering, starting and finishing calls in any order satisfies the queue invariant |
| `SerializedQueue.MutualExclusion` | src/recommendation/engine-orchestrator.ts:222-236 | At most one work item per id runs, in every reachable state |
| `SerializedQueue.StartsInCallOrder` | src/recommendation/derived-state-invalidation-orchestrator.ts:350-369 | When an item may start, all earlier calls for its id have finished and all later ones still wait |
| `SerializedQueue.TailsTrackUnfinished` | src/recommendation/engine-orchestrator.ts:222-236 | tails holds an entry for an id exactly while some call for that id is unfinished |
| `SerializedQueue.NothingBlocks` | src/recommendation/derived-state-invalidation-orchestrator.ts:350-369 | Once its predecessors finished, by returning or by throwing, an unfinished call runs or may start |
| `Engine.NextStateReplays` | src/recommendation/engine-orchestrator.ts:252-259 | Replaying the stored events followed by the kept new ones gives the ledger that ingesting all new ones gave |
| `Engine.StepKeepsSound` | src/recommendation/engine-orchestrator.ts:185-309 | Every call, with any outcome of its awaits, keeps store, cache and ledger consistent |
| `Engine.RunKeepsSound` | src/recommendation/engine-orchestrator.ts:185-309 | The same over every run, restarts included |
| `Engine.StepKeepsInStep` | src/recommendation/engine-orchestrator.ts:243-309 | A cache that agrees with the store still agrees after every call whose save did not lose its acknowledgement; a restart makes them agree |
| `Engine.CachedLedgerIsReplayOfStore` | src/recommendation/engine-orchestrator.ts:191-212 | Over every run without a lost acknowledgement the cached ledger is the replay of the stored events, although duplicates are not stored |
| `Engine.GrowthExactly` | src/recommendation/engine-orchestrator.ts:243-263 | No call other than a deletion can shrink the stored events if and only if the subject is not cached, a barrier is cached, or the cached events start with the stored ones |
| `Engine.StoredEventsOnlyGrow` | src/recommendation/engine-orchestrator.ts:243-292 | Over every run without deletions and lost acknowledgements, restarts included, the stored events only grow |
| `Engine.LostAcknowledgementLosesEvents` | src/recommendation/engine-orchestrator.ts:252-259 | If new events are stored but reported as failed while the subject is cached, the next process call that works stores the earlier events without them |
| `Engine.AnEventCanBeLost` | src/recommendation/engine-orchestrator.ts:243-263 | A run from an empty engine in which the first event of a subject is stored and then lost |
| `Engine.InStepProtects` | src/recommendation/engine-orchestrator.ts:243-263 | A cache that agrees with the store meets that condition |
| `Engine.BarrierHoldsExactly` | src/recommendation/engine-orchestrator.ts:214-220 | A stored barrier is safe over every run if and only if the cache is empty or holds the barrier too |
| `Engine.DeletionSeals` | src/recommendation/engine-orchestrator.ts:294-309 | An acknowledged deletion makes it safe; so does an unacknowledged one if the subject was not cached |
| `Engine.LostAcknowledgementUnseals` | src/recommendation/engine-orchestrator.ts:294-309 | Otherwise, after a deletion whose save was applied but reported as failed, one empty process call succeeds and removes the stored barrier |
| `Engine.FinishingCallersKeepTheBarrier` | src/recommendation/engine-orchestrator.ts:214-220 | If callers finish a failed deletion before other work, a barrier once stored refuses every later process, synchronize and ledger read |
| `Engine.ProcessesExactly` | src/recommendation/engine-orchestrator.ts:243-263 | When process is done: exactly if the batch is within its limit, there is a state to go by (cached, else stored, else empty where that is allowed) without a barrier, the events agree with it and fit the operation limit, and save and profile work; then exactly the new events are stored behind the known ones, and otherwise, unless only the profile fails or the acknowledgement is lost, the store keeps what it had |
| `Engine.ReadsExactly` | src/recommendation/engine-orchestrator.ts:265-292 | The same for synchronize and ledger reads, which never write to the store |
| `Engine.NewSubjectsNeedRecovery` | src/recommendation/engine-orchestrator.ts:191-198 | Without empty initialization, a subject that was never stored is refused all work and stays as it is, over every run without deletions |
| `Engine.NewSubjectsStartExactly` | src/recommendation/engine-orchestrator.ts:191-202 | From nothing stored, each kind of work is done if and only if empty initialization is allowed, the load works, and what is asked for works |
| `Engine.DoneMeansStored` | src/recommendation/engine-orchestrator.ts:252-260 | If process is done, every event of the batch is stored, the batch was within its limit, and there is no barrier |
| `Engine.NoOperationIsStoredTwice` | src/recommendation/engine-orchestrator.ts:252-259 | Over every run, retries and lost acknowledgements included, no operation is stored twice |
| `EngineOrchestrators.EngineOrchestrator.constructor` | src/recommendation/engine-orchestrator.ts:159-183 | Starts with the given store and nothing cached |
| `EngineOrchestrators.EngineOrchestrator.LoadState` | src/recommendation/engine-orchestrator.ts:191-212 | Caches the state with the ledger of its events, or fails and changes nothing; without empty initialization it fails for a subject with nothing stored |
| `EngineOrchestrators.EngineOrchestrator.Save` | src/recommendation/engine-orchestrator.ts:256-257 | A save is acknowledged, rejected without effect, or applied without acknowledgement |
| `EngineOrchestrators.EngineOrchestrator.Process` | src/recommendation/engine-orchestrator.ts:243-263 | Moves the subject as the step model says and leaves every other subject alone; fails without any effect for too large a batch, and without empty initialization for a subject with nothing stored; if it is done, all its events are stored and there is no barrier |
| `EngineOrchestrators.EngineOrchestrator.Synchronize` | src/recommendation/engine-orchestrator.ts:265-275 | The same for synchronize |
| `EngineOrchestrators.EngineOrchestrator.ReadLedgerSnapshot` | src/recommendation/engine-orchestrator.ts:282-292 | The same for a ledger read, and it returns the cached ledger exactly when it is not refused |
| `EngineOrchestrators.EngineOrchestrator.DeleteSubject` | src/recommendation/engine-orchestrator.ts:294-309 | The same for a deletion; if it is done, store and cache hold the barrier with the requested time and no events, and no ledger is left |
| `SignalLedger.BatchConcat` | src/recommendation/signal-ledger.ts:386-412 | Ingesting two batches one after the other is ingesting their concatenation, failures included |
| `SignalLedger.KeptEventsSuffice` | src/recommendation/signal-ledger.ts:300-359 | Ingesting only the events that were not duplicates gives the same ledger |
| `SignalLedger.RetryIsHarmless` | src/recommendation/signal-ledger.ts:300-311 | A batch that was accepted once is accepted again, all of it as duplicates, and changes nothing |
| `SignalLedger.OperationsGrow` | src/recommendation/signal-ledger.ts:300-359 | Accepted operations are never forgotten or altered |
| `SignalLedger.LedgerDescribesEvents` | src/recommendation/signal-ledger.ts:300-359 | The ledger of accepted events holds exactly their operations, for each retracted source the latest retraction, and exactly the signals no retraction covers |
| `SignalLedger.OrderDoesNotMatter` | src/recommendation/signal-ledger.ts:262-359 | Two accepted batches with the same set of events give the same ledger, whatever their order and repetitions |
| `SignalLedger.AnsweredExactly` | src/recommendation/signal-ledger.ts:300-359 | What one more event is answered, from the events so far alone: a duplicate if it is one of them; refused if its operation key is used, if the distinct operations have reached the limit, or if it applies a source that is applied and not retracted; otherwise retracted, suppressed by an earlier retraction, or applied |
| `SignalLedger.AcceptedExactly` | src/recommendation/signal-ledger.ts:386-412 | A batch is accepted by an empty ledger if and only if its distinct events are within the limit, events with one key are equal, and two different applies of one source have a retraction of it before the later |
| `SignalLedger.KeptAreTheNews` | src/recommendation/engine-orchestrator.ts:255-256 | The events that are kept are exactly those that are not known yet, each where it first occurs |
| `SignalLedger.NewsAddOnce` | src/recommendation/engine-orchestrator.ts:255-256 | With them every event of the batch is there, and no operation twice |
| `Propagation.SweepComposes` | src/graph/louvain.ts:21-44 | One in-place sweep gives every node the label that its source node had before the sweep: the first node on its heaviest-neighbour path that lies ahead of its predecessor |
| `Propagation.LabelsAreIterates` | src/graph/louvain.ts:18-45 | After k sweeps the label of a node is the k-th iterate of that source map |
| `Propagation.RestExactly` | src/graph/louvain.ts:18-45 | Some sweep changes nothing if and only if every cycle of heaviest neighbours has at most one node whose choice comes later in the node order |
| `Propagation.RestForcesSettles` | src/graph/louvain.ts:18-45 | The harder direction: if labels ever rest, no such cycle has two |
| `Propagation.SweepLosesACommunity` | src/graph/louvain.ts:18-45 | If so, every sweep that changes a label leaves strictly fewer labels that can still spread, which bounds the loop |
| `Propagation.CommunitiesAreComponents` | src/graph/louvain.ts:47 | At rest two nodes share a label if and only if they lie in one weak component of the heaviest-neighbour graph |
| `Louvain.BestCommunity` | src/graph/louvain.ts:25-38 | The neighbour scan yields the label of the heaviest known neighbour, the first of equals, and the own label if no weight is positive |
| `Louvain.BestIsHeaviest` | src/graph/louvain.ts:28-38 | No other known neighbour is heavier than the one so chosen, and it is the node itself only if no weight is positive |
| `Louvain.SweepOnce` | src/graph/louvain.ts:21-44 | One pass over the nodes is one sweep, and it reports an improvement exactly if some label changed |
| `Louvain.Singletons` | src/graph/louvain.ts:10-14 | Every node starts alone |
| `Louvain.RunLouvain` | src/graph/louvain.ts:7-48 | If the cycle condition holds it terminates at rest, with two nodes in one community exactly when they are weakly connected by heaviest-neighbour links |
| `Louvain.HeaviestClimbs` | src/graph/louvain.ts:28-38 | With symmetric, pairwise distinct positive weights, following heaviest neighbours never loses weight and keeps it only back and forth |
| `Louvain.CyclesAreMutual` | src/graph/louvain.ts:18-45 | So every cycle of heaviest neighbours has at most two nodes |
| `Louvain.DistinctSymmetricSettles` | src/graph/louvain.ts:18-45 | Hence such graphs always meet the cycle condition |
| `Louvain.RingNeverRests` | src/graph/louvain.ts:18-45 | A directed ring of three, and a symmetric triangle of equal weights, are never at rest: the loop does not end |
| `CooccurrenceGraphs.TrimmedIsCapped` | src/graph/cooccurrence-graph.ts:77-97 | Trimming one overfull node restores the degree cap everywhere, only removes edges, and leaves that node exactly at the cap |
| `CooccurrenceGraphs.IncrementedIsFine` | src/graph/cooccurrence-graph.ts:57-97 | Bumping an edge and trimming keeps: no self-loop, no empty node, degrees within the cap, weights in (0, maximum] |
| `CooccurrenceGraphs.WithoutNodeIsFine` | src/graph/cooccurrence-graph.ts:99-114 | Deleting a node keeps all that |
| `CooccurrenceGraphs.NewEdgeGoesExactly` | src/graph/cooccurrence-graph.ts:57-97 | A new edge is trimmed at once if and only if its node was saturated: as many edges as allowed, all of them heavier than 1 |
| `CooccurrenceGraphs.PairKeepsSymmetryExactly` | src/graph/cooccurrence-graph.ts:48-97 | From a symmetric graph without edges from the future, adding a pair leaves it symmetric if and only if the pair is not new, or its first name is not saturated, or both names are |
| `CooccurrenceGraphs.DeleteKeepsSymmetry` | src/graph/cooccurrence-graph.ts:99-114 | Deleting a node keeps a symmetric graph symmetric |
| `CooccurrenceGraphs.DeleteRemovesEdgesExactly` | src/graph/cooccurrence-graph.ts:99-114 | Deleting a node removes every edge to it if and only if each such edge was matched by one back |
| `CooccurrenceGraphs.OneWay` | src/graph/cooccurrence-graph.ts:48-97 | Adding a pair of a saturated name and one that is not in the graph always leaves an edge in one direction only |
| `CooccurrenceGraphs.DeletedNodeIsStillListed` | src/graph/cooccurrence-graph.ts:99-114 | After such an insertion, deleting the saturated name leaves an edge to the deleted name |
| `CooccurrenceGraphs.OneWayEdgesArise` | src/graph/cooccurrence-graph.ts:51-97 | An instance with a cap of one and two nodes |
| `CooccurrenceGraphs.UpsertedRebuilds` | src/graph/cooccurrence-graph.ts:190-200 | Inserting all edges of a listing rebuilds the graph that was listed |
| `CooccurrenceGraphs.SnapshotRoundTrip` | src/graph/cooccurrence-graph.ts:170-200 | fromSnapshot(toSnapshot(g)) is g for every graph with those properties |
| `CooccurrenceGraphs.CooccurrenceGraph.constructor` | src/graph/cooccurrence-graph.ts:31-38 | The graph starts empty |
| `CooccurrenceGraphs.CooccurrenceGraph.Sorted` | src/graph/cooccurrence-graph.ts:81-84 | The keys in order of weight and then age, an edge just added last among equals, each once |
| `CooccurrenceGraphs.CooccurrenceGraph.DropVictims` | src/graph/cooccurrence-graph.ts:86-94 | Drops the given number of first edges one after the other |
| `CooccurrenceGraphs.CooccurrenceGraph.TrimEdgesForNode` | src/graph/cooccurrence-graph.ts:77-97 | Removes, in both directions, exactly as many of the first edges in that order as exceed the cap, and nodes left without edges |
| `CooccurrenceGraphs.CooccurrenceGraph.IncrementEdge` | src/graph/cooccurrence-graph.ts:57-75 | Decays the stored weight, adds one, caps it, stamps the time, and trims the node; what that adds up to is CooccurrenceLaws.RepeatedPairsWeigh |
| `CooccurrenceGraphs.CooccurrenceGraph.AddPair` | src/graph/cooccurrence-graph.ts:48-52 | Both directions are incremented, one after the other |
| `CooccurrenceGraphs.CooccurrenceGraph.AddRow` | src/graph/cooccurrence-graph.ts:46-54 | A name is paired with each later one in order |
| `CooccurrenceGraphs.CooccurrenceGraph.AddCooccurrence` | src/graph/cooccurrence-graph.ts:40-55 | All pairs of distinct names are added in order, and the graph properties are kept |
| `CooccurrenceGraphs.CooccurrenceGraph.DeleteNode` | src/graph/cooccurrence-graph.ts:99-114 | The node is gone with its edges and the edges back along these, and so is each node this leaves without edges; edges to it that had none back stay |
| `CooccurrenceGraphs.CooccurrenceGraph.UpsertEdge` | src/graph/cooccurrence-graph.ts:116-124 | Sets the edge and trims the node |
| `CooccurrenceGraphs.CooccurrenceGraph.ListNeighbours` | src/graph/cooccurrence-graph.ts:175-177 | Lists every neighbour once with its edge |
| `CooccurrenceGraphs.CooccurrenceGraph.ToSnapshot` | src/graph/cooccurrence-graph.ts:170-188 | Lists every node once with all its edges |
| `CooccurrenceGraphs.CooccurrenceGraph.FromSnapshot` | src/graph/cooccurrence-graph.ts:190-200 | Any snapshot gives a graph within its cap, of at least one; the listing of a graph gives that graph if and only if that graph was within the cap |
| `CooccurrenceLaws.RepeatedPairsWeigh` | src/graph/cooccurrence-graph.ts:40-75 | Over any additions of any pairs, n additions of one pair that is not trimmed make both its edges weigh min(max, 1 + d + .. + d^(n-1)) for decay d, with the time of the last of them |
| `CooccurrenceLaws.OnlyPairWeighs` | src/graph/cooccurrence-graph.ts:40-75 | A pair added alone to an empty graph is never trimmed, so this holds after any number of additions |
| `CooccurrenceLaws.AddingTwoNames` | src/graph/cooccurrence-graph.ts:40-55 | Adding two names is one such addition |
| `CooccurrenceLaws.StrengthRises` | src/graph/cooccurrence-graph.ts:66-69 | The weight never falls, and rises strictly with an addition if and only if decay is positive and the cap is not reached |
| `CooccurrenceLaws.TrimmingKeepsTheHeaviest` | src/graph/cooccurrence-graph.ts:77-97 | Every edge of a node that trimming removes is lighter than every edge it keeps, or as heavy and not younger |
| `CooccurrenceLaws.WithoutNodeExactly` | src/graph/cooccurrence-graph.ts:99-114 | Deleting a node keeps exactly the edges that are not its own nor back along these, each as it was, and exactly the other nodes but those whose only edge went |
| `CooccurrenceLaws.PairsAreAll` | src/graph/cooccurrence-graph.ts:46-54 | Of n names every pair in order is added once, n(n-1)/2 in all, in the order of the two loops |
| `CooccurrenceLaws.UniqueKeepsTheFirst` | src/graph/cooccurrence-graph.ts:41 | Of repeated names the first occurrence counts, in order |
| `Calendar.NextDayCounts` | src/recommendation/labeler-discovery.ts:117-122 | Day numbers count days: the next date has the next number, across months, leap years and centuries |
| `Calendar.PreviousDayCounts` | src/recommendation/labeler-discovery.ts:117-122 | Going back a day undoes going forward |
| `Calendar.DayNumbersOrderDates` | src/recommendation/labeler-discovery.ts:132-147 | Day numbers order valid dates as the calendar does, and tell them apart |
| `Calendar.YearFromDayIsRight` | src/recommendation/labeler-discovery.ts:149-171 | The year computed from a day number is the one that contains it |
| `Calendar.DateFromDay` | src/recommendation/labeler-discovery.ts:149-171 | Every day number is the number of a valid date |
| `Calendar.DateRoundTrip` | src/recommendation/labeler-discovery.ts:132-171 | Day number and date convert back and forth |
| `Calendar.GregorianDays` | src/recommendation/labeler-discovery.ts:117-122 | 1 January 1970 is day 0, 29 February exists in the leap years of the Gregorian calendar, four months have 30 days, and 400 years have 146097 days |
| `Timestamps.PaddedWithZeros` | src/recommendation/labeler-discovery.ts:248-251 | Padding appends zeros up to the length, and nothing to a longer fraction |
| `Timestamps.FractionsCompareAsNumbers` | src/recommendation/labeler-discovery.ts:248-251 | Fractions of any lengths compare as the numbers they stand for, so trailing zeros do not matter |
| `Timestamps.EarlyYearsNeedTheirBranch` | src/recommendation/labeler-discovery.ts:132-147 | The start of a second is right for every year from 0; the plain Date.UTC call would be right for a 1 January if and only if the year is at least 100 |
| `Timestamps.TimeValueIsUtc` | src/recommendation/labeler-discovery.ts:124-147 | Subtracting the zone offset gives the minute of the UTC reading of the timestamp |
| `Timestamps.FieldsOfTimeValue` | src/recommendation/labeler-discovery.ts:149-171 | Hours, minutes and seconds can be read back from a time value |
| `Timestamps.LeapSecondsEndMonths` | src/recommendation/labeler-discovery.ts:149-171 | A leap second is accepted if and only if in UTC it is 23:59:60 on the last day of a month |
| `Timestamps.CompareIsChronology` | src/recommendation/labeler-discovery.ts:227-261 | The comparison is before or equal exactly as the UTC readings are, date, hour, minute, second and fraction |
| `Timestamps.CompareIsTotal` | src/recommendation/labeler-discovery.ts:253-261 | It is antisymmetric and total |
| `Timestamps.CompareIsTransitive` | src/recommendation/labeler-discovery.ts:253-261 | It is transitive |
| `Timestamps.ZonesShiftClocks` | src/recommendation/labeler-discovery.ts:124-130 | A timestamp with an offset and one in UTC are the same moment if and only if its clock is ahead, or behind, by exactly that offset, the seconds agree, and the fractions are the same number |
| `Timestamps.LeapSecondInBetween` | src/recommendation/labeler-discovery.ts:227-261 | A leap second lies strictly between every 23:59:59.x and every 00:00:00.y of the next day |
| `LabelerRegistry.WinsIsTransitive` | src/recommendation/labeler-discovery.ts:334-346 | Winning by instant and then by precedence key is transitive |
| `LabelerRegistry.BestIsUnique` | src/recommendation/labeler-discovery.ts:418-422 | A set of offers has one winner |
| `LabelerRegistry.OfferKeepsWinner` | src/recommendation/labeler-discovery.ts:416-425 | Replacing only what is beaten keeps the winner among all offers so far |
| `LabelerRegistry.OffersDecide` | src/recommendation/labeler-discovery.ts:410-449 | The registry is determined by the set of offers per DID since their last removal |
| `LabelerRegistry.OrderAndRepetitionDoNotMatter` | src/recommendation/labeler-discovery.ts:414-427 | After upserts alone it depends only on the set of observations: any permutation or repetition gives the same registry |
| `LabelerRegistry.BestIsLatest` | src/recommendation/labeler-discovery.ts:416-425 | The winner among some observations is the one no other is later than in UTC, with the greatest precedence digest among those of the same moment |
| `LabelerRegistry.InMemoryLabelerRegistry.constructor` | src/recommendation/labeler-discovery.ts:410-413 | Starts empty |
| `LabelerRegistry.InMemoryLabelerRegistry.Upsert` | src/recommendation/labeler-discovery.ts:414-427 | Returns what the DID holds afterwards: of all its offers since the last removal none is later in UTC, and of those at the same moment none has a greater precedence digest |
| `LabelerRegistry.InMemoryLabelerRegistry.Get` | src/recommendation/labeler-discovery.ts:429-432 | Finds that latest observation, and nothing exactly when there were no offers since the last removal |
| `LabelerRegistry.InMemoryLabelerRegistry.Remove` | src/recommendation/labeler-discovery.ts:442-444 | Forgets that DID alone, and tells whether it was held |
| `LabelerRegistry.InMemoryLabelerRegistry.Clear` | src/recommendation/labeler-discovery.ts:446-448 | Forgets everything |
| `Decimal.ParsePrint` | src/recommendation/activitypub-public-outbox-source-adapter.ts:307-315 | A printed offset parses to itself |
| `Decimal.PrintParse` | src/recommendation/activitypub-public-outbox-source-adapter.ts:333-354 | Only the printed form parses: no sign, no leading zero |
| `OutboxCursor.CursorParts` | src/recommendation/activitypub-public-outbox-source-adapter.ts:307-315 | An encoded cursor is bounded, has the current prefix, and splits into offset and reference as it was joined |
| `OutboxCursor.ResolveRelative` | src/recommendation/activitypub-public-outbox-source-adapter.ts:344-353 | Path and query resolve back against the origin if and only if the path does not start with two slashes and the query is not present but empty |
| `OutboxCursor.CursorRoundTrip` | src/recommendation/activitypub-public-outbox-source-adapter.ts:307-354 | decodeCursor undoes encodeCursor if and only if that holds of the page |
| `OutboxCursor.CursorsStayOnTheOrigin` | src/recommendation/activitypub-public-outbox-source-adapter.ts:307-354 | Whatever a cursor says, of either version, it is taken only for a page of the origin; one is made exactly for a page of the origin whose cursor has at most 1024 characters |
| `PublicOutbox.PublicRecipientNames` | src/recommendation/activitypub-public-outbox-source-adapter.ts:256-261 | Recipients are public exactly if some name or id anywhere in them, at any depth, is a public one |
| `PublicOutbox.PublicMembers` | src/recommendation/activitypub-public-outbox-source-adapter.ts:263-267 | What is taken is exactly the activities that name the public |
| `PublicOutbox.PublicExactlyWhenNamed` | src/recommendation/activitypub-public-outbox-source-adapter.ts:263-267 | An activity is explicitly public if and only if one of the three names of the public occurs, at any depth, in to, cc or audience of the activity or of its object |
| `PublicOutbox.PublicPlaces` | src/recommendation/activitypub-public-outbox-source-adapter.ts:483-497 | Each item that names the public is taken once, in its place in the order, and no other item is |
| `PublicOutbox.CleanGrows` | src/recommendation/activitypub-public-outbox-source-adapter.ts:477-497 | A page that may be scanned adds only records that are the actor's and name the public |
| `PublicOutbox.Fetch` | src/recommendation/activitypub-public-outbox-source-adapter.ts:443-458 | A page is used only if it is a collection or page whose id, if any, is the URL asked for |
| `PublicOutbox.Follow` | src/recommendation/activitypub-public-outbox-source-adapter.ts:511-520 | The next page is the one linked to, and an inlined copy is handed on |
| `PublicOutbox.TakePublic` | src/recommendation/activitypub-public-outbox-source-adapter.ts:481-508 | Takes the public activities from the offset on until the room is used up; every activity looked at is the actor's own, or the read is refused |
| `PublicOutbox.Enough` | src/recommendation/activitypub-public-outbox-source-adapter.ts:498-507 | Stopping early returns a cursor to the very next position, or none at the very end |
| `PublicOutbox.TakePage` | src/recommendation/activitypub-public-outbox-source-adapter.ts:477-520 | One page: all of the above in a row |
| `PublicOutbox.TakeFirst` | src/recommendation/activitypub-public-outbox-source-adapter.ts:460-473 | The outbox itself sends the reader to its first page |
| `PublicOutbox.TakeTurn` | src/recommendation/activitypub-public-outbox-source-adapter.ts:439-521 | One turn of the loop takes exactly the rest of one page, and never visits a URL twice |
| `PublicOutbox.Read` | src/recommendation/activitypub-public-outbox-source-adapter.ts:403-536 | On a well-formed finite page chain a read returns exactly the public activities from its start on, up to the limit or the page cap, with a cursor to where it stopped, strictly later; on anything else it refuses, or returns no more records than asked for and than the cap, each the actor's own and naming the public, from distinct pages of the outbox on its own origin, each under its own name and within the item cap |
| `PublicOutbox.FollowedTo` | src/recommendation/activitypub-public-outbox-source-adapter.ts:403-536 | Following k cursors, what was returned and what is left make up everything, and something is left less each time |
| `PublicOutbox.FollowingReadsEverythingOnce` | src/recommendation/activitypub-public-outbox-source-adapter.ts:403-536 | Following cursors until none is returned yields exactly the public activities, in order, once each, for any limits and caps of at least one, changing from read to read; those are the activities of the pages that name the public |
| `PublicOutbox.FollowingEnds` | src/recommendation/activitypub-public-outbox-source-adapter.ts:403-536 | and ends after a bounded number of reads |
| `PublicOutbox.CapsDoNotMatter` | src/recommendation/activitypub-public-outbox-source-adapter.ts:362-402 | Whether pages form a chain does not depend on the caps |
| `PublicOutbox.RestIsPublic` | src/recommendation/activitypub-public-outbox-source-adapter.ts:483-497 | What is left is the public part of the remaining pages put together |
| `CanonicalSource.AcceptedIsOnePerIdentity` | src/recommendation/canonical-source-adapter.ts:871-886 | The accepted events are wanted ones of the list, one for every identity that has any |
| `CanonicalSource.AcceptedOnce` | src/recommendation/canonical-source-adapter.ts:871-886 | Accepted events were observed late enough, are mirrored only if that is asked for, and no two share a canonical event id, nor without it an intent id, nor without both the source event and kind |
| `CanonicalSource.AcceptedPrefix` | src/recommendation/canonical-source-adapter.ts:859-915 | A longer list only adds to them at the end |
| `CanonicalSource.ReadItems` | src/recommendation/canonical-source-adapter.ts:859-915 | Returns exactly the requested slice of the accepted events, with a cursor exactly when more remain, though it stops scanning early |
| `CanonicalSource.Read` | src/recommendation/canonical-source-adapter.ts:937-944 | The same from a textual cursor, refusing one that is malformed; at most the limit, 100 by default, of events that were asked for, none twice under any of its ids |
| `CanonicalSource.CursorRoundTrip` | src/recommendation/canonical-source-adapter.ts:815-830 | A printed offset is read back exactly up to the largest safe integer |
| `CanonicalSource.FollowedTo` | src/recommendation/canonical-source-adapter.ts:859-945 | After k pages exactly the first so many events were returned |
| `CanonicalSource.FollowingCoversOnce` | src/recommendation/canonical-source-adapter.ts:859-945 | Following cursors to the end returns every accepted event once, in order, in at most one page more than events |
| `JsonText.StringRoundTrip` | src/ann/config-lifecycle.ts:23-35 | A quoted string, with every escape, is read back exactly |
| `JsonText.SortAscends` | src/recommendation/embedding-lifecycle.ts:194-207 | Sorting by key puts distinct keys in ascending order |
| `JsonText.AscendingIsUnique` | src/recommendation/embedding-lifecycle.ts:194-207 | Two ascending lists with the same entries are equal |
| `CanonicalJson.ParsesAs` | src/ann/config-lifecycle.ts:23-35 | For every value, a JSON parser reads what is printed for it as exactly determined: the value with keys sorted; failure if an undefined value is printed as a word; an empty array where the printed array holds only nothing |
| `EmbeddingText.StableTextIsCanonical` | src/recommendation/embedding-lifecycle.ts:179-212 | Canonical text is the plain text of the value with keys sorted and undefined fields dropped |
| `EmbeddingText.CanonIsCanonical` | src/recommendation/embedding-lifecycle.ts:194-207 | That value is in canonical form |
| `EmbeddingText.CanonicalReadsAsItself` | src/recommendation/embedding-lifecycle.ts:179-212 | and prints as text that parses back to it |
| `EmbeddingText.StableTextReadsBack` | src/recommendation/embedding-lifecycle.ts:179-212 | So parsing canonical text yields the canonical value |
| `EmbeddingText.SameExactlyWhenCanonEqual` | src/recommendation/embedding-lifecycle.ts:179-212 | Two values have the same canonical form exactly when they agree up to key order and undefined fields, at every depth |
| `EmbeddingText.SameTextExactlyWhenSame` | src/recommendation/embedding-lifecycle.ts:179-212 | Two values have the same canonical text exactly then |
| `EmbeddingFreshness.SameModelExactly` | src/recommendation/embedding-lifecycle.ts:377-394 | Two models count as the same exactly when all their identifying parts agree, artifact included |
| `EmbeddingFreshness.DigestsTellProfilesApart` | src/recommendation/embedding-lifecycle.ts:343-354 | With a collision-free hash, source digests differ exactly when the profiles do |
| `EmbeddingFreshness.EvaluateFreshness` | src/recommendation/embedding-lifecycle.ts:556-584 | Each staleness reason is reported exactly when it applies, profile_changed exactly when the normalized profiles differ; reasons come in their fixed order; stale exactly when there is one |
| `EmbeddingFreshness.Reasons` | src/recommendation/embedding-lifecycle.ts:570-580 | The set of reasons is filled one test at a time |
| `EmbeddingFreshness.InOrder` | src/recommendation/embedding-lifecycle.ts:582-583 | The found reasons, in the fixed order |
| `AnnSnapshot.ReadBackExactlyWhenClean` | src/ann/config-lifecycle.ts:23-35 | A printed value reads back as itself with keys sorted if and only if it holds no undefined part and no number JSON cannot write |
| `AnnSnapshot.SameTextSameValue` | src/ann/config-lifecycle.ts:23-35 | For such values texts agree exactly when the values do up to key order |
| `AnnSnapshot.TextOfSorted` | src/ann/config-lifecycle.ts:23-35 | Key order does not change the text |
| `AnnSnapshot.ReadIsSorted` | src/ann/config-lifecycle.ts:111-120 | What is read from printed text has sorted keys |
| `AnnSnapshot.TextOfRead` | src/ann/config-lifecycle.ts:111-120 | What is read back prints as the same text, so its fingerprint is unchanged |
| `AnnSnapshot.DeserializeSerialized` | src/ann/config-lifecycle.ts:106-120 | What deserializing a serialized valid snapshot gives, failures included: every field but the configuration is kept |
| `AnnSnapshot.ReadIsChecked` | src/ann/config-lifecycle.ts:45-74 | A parsed object is accepted if and only if its version is 1, its date is one, its configuration is an object, and its fingerprint is the hash of the text of that configuration |
| `AnnSnapshot.AlteredIsRefused` | src/ann/config-lifecycle.ts:45-74 | With a collision-free hash, a configuration altered in more than key order under an old fingerprint is refused |
| `AnnSnapshot.SnapshotRoundTrip` | src/ann/config-lifecycle.ts:106-120 | It is that snapshot, up to key order, if and only if its configuration holds no undefined part and no number JSON cannot write |
| `AnnSnapshot.ChangedExactlyWhenDifferent` | src/ann/config-lifecycle.ts:127-133 | With a collision-free hash, such snapshots are reported as changed exactly when their configurations differ |
| `Catalogs.TagSpecificity` | src/recommendation/catalog.ts:487-499 | The loop computes the rank of a tag |
| `Catalogs.SpecificityRanks` | src/recommendation/catalog.ts:487-499 | A tag outranks another if and only if it is under a subtopic and the other is not, or it is under a primary topic and the other under no known topic |
| `Catalogs.ResolveCanonicalTagForHashtag` | src/recommendation/catalog.ts:501-522 | Finds nothing exactly when no tag has the token among its hashtags or variants; otherwise a tag that has it, such that no other is more specific and no equally specific one comes before it |
| `Catalogs.FirstMostNext` | src/recommendation/catalog.ts:509-519 | Replacing the best only by a strictly more specific tag keeps the first of the most specific |
| `Catalogs.CatalogIsLinked` | src/recommendation/catalog.ts:389-436 | In a normalized catalog every subtopic id leads to a topic without subtopics |
| `Catalogs.ExpandedCanonicalTagsForTopics` | src/recommendation/catalog.ts:524-549 | Fails exactly when a selected id is the id of no topic; otherwise yields exactly the tags listed by a selected topic or by a subtopic that a selected topic lists |
| `Catalogs.ExpandTopics` | src/recommendation/catalog.ts:524-549 | The queue loop on its own, which ends |
| `CatalogIndexes.SortIds` | src/recommendation/catalog-index.ts:153-154 | The ids in ascending order, each once |
| `CatalogIndexes.BestTagForToken` | src/recommendation/catalog-index.ts:108-132 | The most specific tag, the first of equals in id order, and whether another is equally specific |
| `CatalogIndexes.CollectTokens` | src/recommendation/catalog-index.ts:140-147 | Every token with exactly the ids of the tags that carry it |
| `CatalogIndexes.IndexToken` | src/recommendation/catalog-index.ts:152-173 | The entry of one token, and a collision record exactly when several ids carry it |
| `CatalogIndexes.CreateTagTokenIndexes` | src/recommendation/catalog-index.ts:134-180 | Refuses exactly when ambiguous tokens are to be rejected and there is one; otherwise every token is indexed so |
| `CatalogIndexes.AmbiguousCarriersHaveTwoIds` | src/recommendation/catalog-index.ts:160-172 | An ambiguous token always has a collision record |
| `CatalogIndexes.IndexAgreesWithScan` | src/recommendation/catalog-index.ts:262-268 | Index and scan find a tag for the same tokens, always of equal specificity; the same one if and only if one tag comes first in both id orders among the most specific carriers, as when the token is not ambiguous or the orders agree on these |
| `CatalogIndexes.ScanAndIndexDiffer` | src/recommendation/catalog-index.ts:152-158 | Two tags that share a token, for which the scan finds the one and the index the other under every locale order that puts the low line before the hyphen |
| `CatalogEntities.KeysTellEntitiesApart` | src/recommendation/catalog-index.ts:73-75 | Entity keys are equal exactly when source and id are |
| `CatalogEntities.AddMentionHolds` | src/recommendation/catalog-index.ts:182-244 | Recording one more mention keeps the index equal to the fold over all mentions |
| `CatalogEntities.AddRefs` | src/recommendation/catalog-index.ts:218-225 | The same for all references of one topic or tag |
| `CatalogEntities.CreateEntityIndex` | src/recommendation/catalog-index.ts:182-244 | The index holds, for every key, the first reference and all topic and tag ids |
| `CatalogEntities.ResolveFromIndex` | src/recommendation/catalog-index.ts:270-296 | Answers with that reference and those ids in order, or nothing if there is no reference |
| `CatalogEntities.FindThenLearn` | src/recommendation/catalog-entity-resolution.ts:67-87 | Looking at only the first matching reference of an item learns the same as looking at all |
| `CatalogEntities.ScanTopics` | src/recommendation/catalog-entity-resolution.ts:67-73 | The scan over topics is the fold over their mentions |
| `CatalogEntities.ScanTags` | src/recommendation/catalog-entity-resolution.ts:75-87 | The scan over tags goes on with it, parents included |
| `CatalogEntities.ResolveCatalogEntity` | src/recommendation/catalog-entity-resolution.ts:56-103 | The linear scan answers with the first reference and all topic and tag ids |
| `CatalogEntities.EntityIndexAgreesWithScan` | src/recommendation/catalog-index.ts:270-296 | Index and scan answer alike: the same reference and the same sets of ids, and the same lists if the id orders agree |
| `CatalogEntities.SortedOnce` | src/recommendation/catalog-entity-resolution.ts:93-101 | An ascending list is determined by its members |
| `CatalogFacts.FactsOfTheCatalog` | src/recommendation/catalog-entity-resolution.ts:56-103 | What scan and index find, in terms of the catalog: the first reference to the entity, topics before tags; the topics that refer to it and the parents of the tags that do; and these tags |
| `CatalogFacts.FindIsFirst` | src/recommendation/catalog-entity-resolution.ts:67-87 | The first matching reference of a list is found exactly when there is one |
| `ProviderFailover.FailureOpensExactly` | src/ann/orchestrator.ts:301-308 | A failure leaves its provider's circuit open if and only if it reaches the threshold, and exactly until the cooldown after it is over |
| `ProviderFailover.OnlyOwnFailuresOpen` | src/ann/orchestrator.ts:301-332 | A clear closes a provider's circuit, and what happens to other providers does not change it |
| `ProviderFailover.CircuitClosesInTime` | src/ann/orchestrator.ts:276-283 | An open circuit stays closed once time has closed it |
| `ProviderFailover.TellsStill` | src/ann/orchestrator.ts:301-332 | What is stored for every provider keeps telling its number of failures since the last clear and when it may be retried |
| `ProviderFailover.RetryDelay` | src/ann/orchestrator.ts:137-141 | A retry waits its delay and at most a fifth (or one millisecond) more, and never more than the maximum |
| `ProviderFailover.BackoffDoubles` | src/ann/orchestrator.ts:378-402 | The n-th retry has 2^(n-1) times the initial delay, but from the second on never more than the maximum |
| `ProviderFailover.RingNext` | src/ann/orchestrator.ts:261-269 | Writing at the cursor keeps the ring equal to the last events |
| `ProviderFailover.TriedInVain` | src/ann/orchestrator.ts:424-441 | A fallback that is not taken was open, not healthy, or failed on every run, unless a listener threw |
| `ProviderFailover.TakenWorked` | src/ann/orchestrator.ts:428-437 | A fallback that is taken succeeded with its last run and only with that |
| `ProviderFailover.StillCharged` | src/ann/orchestrator.ts:438-441 | Whatever a fallback in vain does, every provider that ran stays charged with a failure |
| `ProviderFailover.SelectionChooses` | src/ann/orchestrator.ts:334-370 | The active provider is kept if its circuit is closed; else the first candidate that is closed and healthy is chosen, and none exactly if all were turned down, unless a listener threw |
| `ProviderFailover.CallEnds` | src/ann/orchestrator.ts:409-446 | No provider runs the operation more than retryAttempts times; the provider reported ran last, succeeded and has no failures; if none is reported every provider that ran is charged; unless a listener threw, nothing else succeeded, and a call that goes on after failures left no candidate out |
| `ProviderFailover.SelectedWithFailures` | src/ann/orchestrator.ts:334-370 | A provider that has failures once selected: they were there before, on the first candidate looked at, and no health check came before |
| `ProviderFailover.SecondSuccess` | src/ann/orchestrator.ts:409-446 | An operation that succeeded on the selected provider succeeds again only if the call goes on after failures, that provider had failures, and there is a candidate of another name; and never a third time |
| `ProviderFailover.AtMostTwice` | src/ann/orchestrator.ts:409-446 | So over all calls, whatever the listener does, an operation succeeds at most once, or twice where that is possible before the call |
| `ProviderFailover.CanRepeat` | src/ann/orchestrator.ts:412-437 | Where it is possible there is a call with two successes: the primary succeeds, the listener throws on its recovery, and another provider runs the operation too |
| `ProviderFailover.RepeatsExactly` | src/ann/orchestrator.ts:409-446 | Some call succeeds more than once if and only if, before the call, it goes on after failures, the first candidate to be looked at has failures that no health check clears first, and there is a candidate of another name |
| `ProviderFailover.ProviderOrchestrator.constructor` | src/ann/orchestrator.ts:203-223 | Starts with no failures, no events and no active provider |
| `ProviderFailover.ProviderOrchestrator.RecordEvent` | src/ann/orchestrator.ts:261-269 | One more event is recorded |
| `ProviderFailover.ProviderOrchestrator.GetRecentEvents` | src/ann/orchestrator.ts:512-528 | Returns the last min(n, limit) of all n emitted events, in order |
| `ProviderFailover.ProviderOrchestrator.Emit` | src/ann/orchestrator.ts:271-274 | The event is recorded even if the listener throws |
| `ProviderFailover.ProviderOrchestrator.IsCircuitOpen` | src/ann/orchestrator.ts:276-283 | Open exactly when the failures since the last clear have reached the threshold and the last of them is less than the cooldown ago |
| `ProviderFailover.ProviderOrchestrator.ProviderHealth` | src/ann/orchestrator.ts:285-299 | Reports that, the number of failures since the last clear, and the time left |
| `ProviderFailover.ProviderOrchestrator.RecordFailure` | src/ann/orchestrator.ts:301-321 | One failure more is charged at the present time, the provider stops being active, one event is emitted |
| `ProviderFailover.ProviderOrchestrator.ClearFailure` | src/ann/orchestrator.ts:323-332 | No failure is left, and recovery is announced exactly if there was one |
| `ProviderFailover.ProviderOrchestrator.CheckAndClear` | src/ann/orchestrator.ts:355-357 | Only a healthy candidate is cleared, and its circuit is then closed |
| `ProviderFailover.ProviderOrchestrator.CheckAndSelect` | src/ann/orchestrator.ts:355-366 | Selects exactly if the candidate is healthy and no listener throws; charges it if the check or a listener threw |
| `ProviderFailover.ProviderOrchestrator.TryToSelect` | src/ann/orchestrator.ts:341-367 | What one candidate's turn does and charges, by cases: open, not checked, not healthy, check failing, healthy |
| `ProviderFailover.ProviderOrchestrator.ScanCandidates` | src/ann/orchestrator.ts:341-369 | All candidates have their turn in order until one is taken |
| `ProviderFailover.ProviderOrchestrator.SelectProvider` | src/ann/orchestrator.ts:334-370 | Looks at the active provider, keeps it if its circuit is closed, and else takes the first candidate that is closed and healthy, and none exactly if all were turned down, unless a listener threw |
| `ProviderFailover.ProviderOrchestrator.TellRetry` | src/ann/orchestrator.ts:391-402 | The announced delay is that attempt's doubled and capped backoff with at most its jitter |
| `ProviderFailover.ProviderOrchestrator.RunWithRetry` | src/ann/orchestrator.ts:372-407 | Runs the operation on that provider between once and retryAttempts times, again only after a throw that may be retried, once only for unretried writes; the outcome is that of the last run; one retry is announced between two runs; unless a listener threw, it gives up only after the last attempt, or on an error that may not be retried, or for an unretried write |
| `ProviderFailover.ProviderOrchestrator.CheckAndRun` | src/ann/orchestrator.ts:428-437 | Runs the operation exactly if the candidate is healthy |
| `ProviderFailover.ProviderOrchestrator.TryFallback` | src/ann/orchestrator.ts:424-441 | What one fallback's turn does and charges, by cases; taken exactly if its last run succeeded |
| `ProviderFailover.ProviderOrchestrator.RunAndClear` | src/ann/orchestrator.ts:412-415 | A success clears the primary's failures |
| `ProviderFailover.ProviderOrchestrator.TryPrimary` | src/ann/orchestrator.ts:412-421 | A primary that is not taken is charged, after a success only if the listener threw on its recovery; the others get their turn only if failing open |
| `ProviderFailover.ProviderOrchestrator.TryNext` | src/ann/orchestrator.ts:423-442 | One more candidate has had its turn, or has the primary's name |
| `ProviderFailover.ProviderOrchestrator.TryOthers` | src/ann/orchestrator.ts:423-444 | All of them in order, until one is taken |
| `ProviderFailover.ProviderOrchestrator.Execute` | src/ann/orchestrator.ts:412-445 | The selected provider's turn, and then that of the others if it fails |
| `ProviderFailover.ProviderOrchestrator.WithFallbackExecution` | src/ann/orchestrator.ts:409-446 | A call is one of the calls described, and ends as every call does, with the reported provider active; the operation succeeds at most twice, at most once unless it may be repeated, and with health checks before selection never twice |
| `WorkerPool.StepKeeps` | src/recommendation/cold-start-candidate-generation.ts:628-651 | Every claim, read and abort keeps the pool invariant |
| `WorkerPool.RunKeeps` | src/recommendation/cold-start-candidate-generation.ts:628-651 | So it holds over every interleaving |
| `WorkerPool.SlotsHoldOutcomes` | src/recommendation/cold-start-candidate-generation.ts:628-651 | When all workers returned without abort or failure, slot i holds the outcome of item i |
| `WorkerPool.InterleavingDoesNotMatter` | src/recommendation/cold-start-candidate-generation.ts:628-651 | So any two interleavings, with any numbers of workers, one included, give the same slots |
| `WorkerPool.FailsExactlyWhenAnItemFails` | src/recommendation/cold-start-scoring-input-builder.ts:247-300 | Without an abort the pool fails if and only if some item fails, and then with the error of such an item |
| `WorkerPool.AtMostConcurrencyInFlight` | src/recommendation/cold-start-candidate-generation.ts:628-651 | At most concurrency reads are in flight, all of different items |
| `WorkerPool.ItemsAreClaimedOnce` | src/recommendation/cold-start-candidate-generation.ts:628-651 | No index is claimed twice |
| `WorkerPool.RunsEnd` | src/recommendation/cold-start-scoring-input-builder.ts:247-300 | Every run ends within three steps per item and one |
| `WorkerPool.NothingBlocks` | src/recommendation/cold-start-scoring-input-builder.ts:247-300 | Until all workers returned, some step is possible |
| `CsvScanners.ParseFollowPackRows` | src/recommendation/legacy-fediverse-follow-packs.ts:97-118 | The loop is the scan that lets every quote open or close, with its limits on text, characters and rows |
| `CsvScanners.ParseDomainBlockRows` | src/recommendation/mastodon-domain-block-lists.ts:75-122 | The loop is the scan that lets a quote open only at the start of a field, with its limits |
| `CsvScanners.WrittenScans` | src/recommendation/legacy-fediverse-follow-packs.ts:103-117 | Scanning what was written collects exactly what was to be written, from any row on |
| `CsvScanners.ScannersReadBack` | src/recommendation/mastodon-domain-block-lists.ts:75-122 | Any table whose rows each have a non-empty field, written with or without quotes and with any mix of LF, CRLF and CR, is recovered exactly by both |
| `CsvScanners.RowLimitCountsLineEnds` | src/recommendation/mastodon-domain-block-lists.ts:104-111 | On such text the row limit of the domain-block scanner counts line ends, so an unterminated last row is not counted |
| `CsvScanners.AgreeWithoutBareQuotes` | src/recommendation/mastodon-domain-block-lists.ts:75-122 | The scanners agree on every text without a quote inside an unquoted field |
| `CsvScanners.AgreeExactly` | src/recommendation/mastodon-domain-block-lists.ts:98-101 | They agree on a text if and only if it has no such quote, or both refuse it |
| `CsvScanners.BareQuotesDivide` | src/recommendation/legacy-fediverse-follow-packs.ts:105-106 | For instance, the one drops the quotes of such a field and the other keeps them |
| `CsvScanners.HasUnsafeCharacter` | src/recommendation/legacy-fediverse-follow-packs.ts:98 | Finds a character of code up to 31 or from 127 to 159, other than tab, line feed and carriage return, exactly when there is one |
| `Base64.AlphabetIsLetters` | src/recommendation/atproto-subscribe-labels-client.ts:61 | The alphabet string is the one of section 4 of RFC 4648 |
| `Base64.EncodeBase64` | src/recommendation/atproto-subscribe-labels-client.ts:108-121 | The loop over groups of three is the encoding |
| `Base64.EncodedLength` | src/recommendation/atproto-subscribe-labels-client.ts:108-121 | Its length is 4 times the ceiling of n/3 |
| `Base64.DecodeEncoded` | src/recommendation/atproto-subscribe-labels-client.ts:108-121 | A decoder that checks alphabet, padding and zero bits recovers every byte sequence |
| `Base64.NormalizeSignature` | src/recommendation/atproto-subscribe-labels-client.ts:123-134 | Refuses exactly what exceeds the byte limit, and encodes the rest |
| `Base64.ByteLimitIsTextLimit` | src/recommendation/atproto-labels.ts:190-198 | A signature is within 1536 bytes if and only if its text is within the 2048 characters a label may have |

## Left out

What stands outside the model:

- HTTP, WebSocket and file transports, abort signals, timeouts, retry sleeping and real clocks: their answers are arbitrary values, and a failing call is a failing step. A retry sleep always ends.
- Validation of records, URLs, hosts, identifiers and key lists, and the normalization of profiles, hashtags and catalogs: the model starts from normalized inputs.
- The regular expressions behind timestamps and DIDs: a timestamp is its parsed fields together with the length of its text.
- URL parsing beyond what relative references made of a path and a query need: any other reference, and any cursor of the older version, resolves by an arbitrary function; that its page is of the origin is checked all the same.
- localeCompare tables and Unicode: the orders of ids are arbitrary strict total orders, and characters are compared by their code.
- SHA-256: an arbitrary hash function, collision-free where a digest has to tell values apart.
- Floating point: edge weights, decay and jitter are exact reals, so rounding, and ties made by rounding, are not modelled.
- Number formatting: a JSON number is its printed token; what a number prints as, and negative zero, are not modelled.
- JSON text with white space between tokens, which the printers never produce.
- Ledger keys are numbers, compared as numbers; the display form of an event time, expiry of active signals at read time, and the sorted listings of the ledger.
- The profile store and the application of a ledger to a profile: each such step succeeds or fails; an answering engine reports an arbitrary profile digest.
- Which of several edges of equal weight and age is trimmed, except that an edge just added goes last, and the order in which nodes and neighbours are listed in a snapshot: any choice and any order are allowed. Metrics, pruning and ingestion around the graph are omitted.
- Mutation of the map that runLouvain iterates over: the node order is fixed during a run, as it is in the program.
- Authorization, `since` requests and the actor document of an outbox read; a page's inlined copy is assumed to equal the page only where the page chain is assumed to be well formed.
- Building the source item of an accepted event; a read item is the event itself.
- Embedding ids, vectors, deserialization and invalidation of embedding records.
- The migration of ANN snapshots, which copies a valid one, and the object freezing and cloning everywhere.
- Onboarding selections and hashtag follow plans, which assemble what the modelled functions find.
- The maps of a catalog index that no modelled lookup reads, and whether the two topic maps by kind are complete.
- Calls that overlap in time on one ANN provider orchestrator: its calls are taken one after the other.
- Provider probing, timeouts of health checks, retry metrics and listener payloads of the ANN provider orchestrator; a health check is healthy, not healthy, or failing.
- Reading a source, grouping, merging and matching candidates, deterministic scores and the binding of features to candidates, around the worker pools.
- Headers, member and rule validation, and domain evaluation, after the CSV rows have been scanned.
- Frames, sequence numbers and limits of the label stream; signatures that arrive as text.
- The consent, label-effect, eligibility and moderation tables, the static catalogs, the database adapters and the first-session orchestrator, whose worker pool repeats the one modelled.

Members whose contract says less than the source does:

- EngineOrchestrators.EngineOrchestrator.Process: the returned ingestion and application results are not part of it.
- EngineOrchestrators.EngineOrchestrator.Synchronize: the returned application result is not part of it.
- EngineOrchestrators.EngineOrchestrator.ReadLedgerSnapshot: returns the whole ledger, without leaving out expired signals and without the sorted listings.
- DerivedStateOrchestrators.DerivedStateOrchestrator.Process: returns the propagation only, without the engine's own result; the time stamped on the task is not modelled.
- DerivedStateOrchestrators.DerivedStateOrchestrator.Synchronize: returns the propagation only, without the application result.
- DerivedStateOrchestrators.DerivedStateOrchestrator.DeleteSubject: returns the propagation only, without the engine's deletion result.
- PublicOutbox.Read: says when a read succeeds only for outboxes that form a page chain; elsewhere it says what any successful read returns.
- PublicOutbox.Follow: off a page chain it says only that an inlined copy belongs to the page linked to.
- PublicOutbox.Enough: off a page chain it says what was taken, not which cursor is returned.
- PublicOutbox.TakePage: on pages outside a chain it says what was taken, not which pages are refused.
- LabelerRegistry.InMemoryLabelerRegistry.Get: the sorted listing of all entries beside it is not modelled.
- Catalogs.ExpandedCanonicalTagsForTopics: the result is a set; that it is sorted is not stated.
- Catalogs.ExpandTopics: the result is a set; its order is not stated.
- CatalogIndexes.CreateTagTokenIndexes: collisions are looked up by token; the order of their listing is not stated.
- CooccurrenceGraphs.CooccurrenceGraph.TrimEdgesForNode: which of several older edges of equal weight and age goes is left open.
- CooccurrenceGraphs.CooccurrenceGraph.ListNeighbours: the order by name is left open.
- CooccurrenceGraphs.CooccurrenceGraph.ToSnapshot: the order of nodes by name is left open.
- ProviderFailover.RetryDelay: the jitter is bounded, not fixed, because the random source is arbitrary.
- ProviderFailover.ProviderOrchestrator.SelectProvider: which candidate is chosen is stated for calls during which no listener throws.
- ProviderFailover.ProviderOrchestrator.RunWithRetry: which errors may be retried is an arbitrary function of the attempt.
- WorkerPool.FailsExactlyWhenAnItemFails: which of several failing items is reported is left open, since it depends on the interleaving.
