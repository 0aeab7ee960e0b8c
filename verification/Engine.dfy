/** The per-subject engine over a durable state store: src/recommendation/engine-orchestrator.ts. */
module Engine {
  import opened Options
  import opened SignalLedger

  type SubjectId = string
  type Timestamp = string

  datatype Persisted = Persisted(events: seq<Event>, deletedAt: Option<Timestamp>)

  const NOTHING := Persisted([], None)

  datatype Config = Config(allowEmpty: bool, batchLimit: nat, maxOperations: nat)

  /** How a store write ends for the caller: applied and reported, not applied, or applied although it reported failure. */
  datatype Write = Acknowledged | Rejected | Unacknowledged

  /** One subject: what the store holds, and what this process has cached of it. */
  datatype State = State(store: Option<Persisted>, cache: Option<Persisted>, ledger: Option<Ledger>)

  /** A call with what its environment answers: does the load work, how does the save end, does the profile step work. */
  datatype Call =
    | Process(events: seq<Event>, loads: bool, save: Write, applies: bool)
    | Synchronize(loads: bool, applies: bool)
    | ReadLedger(loads: bool)
    | Delete(at: Timestamp, save: Write, applies: bool)
    | Restart

  datatype Verdict = Done | Blocked | Failed

  function Replay(c: Config, events: seq<Event>): BatchResult {
    IngestBatch(EMPTY, events, c.maxOperations)
  }

  // ---------------------------------------------------------------- one call

  /** The state once the subject is loaded, if it can be. */
  function Loaded(c: Config, s: State, loads: bool): Option<State> {
    if s.cache.Some? then Some(s)
    else if !loads then None
    else match s.store
      case None => if c.allowEmpty then Some(State(None, Some(NOTHING), Some(EMPTY))) else None
      case Some(p) =>
        var replay := Replay(c, p.events);
        if replay.BatchRefused? then None else Some(State(s.store, Some(p), Some(replay.ledger)))
  }

  function Saved(s: State, save: Write, next: Persisted, ledger: Option<Ledger>): State {
    match save
    case Acknowledged => State(Some(next), Some(next), ledger)
    case Rejected => s
    case Unacknowledged => s.(store := Some(next))
  }

  function Finish(ok: bool): Verdict {
    if ok then Done else Failed
  }

  function Step(c: Config, s: State, call: Call): (State, Verdict) {
    match call
    case Process(events, loads, save, applies) =>
      if |events| > c.batchLimit then (s, Failed) else
      var loaded := Loaded(c, s, loads);
      if loaded.None? then (s, Failed) else Processed(c, loaded.value, events, save, applies)
    case Synchronize(loads, applies) =>
      var loaded := Loaded(c, s, loads);
      if loaded.None? then (s, Failed) else
      var (l, v) := WithLedger(c, loaded.value);
      (l, if v.Done? then Finish(applies) else v)
    case ReadLedger(loads) =>
      var loaded := Loaded(c, s, loads);
      if loaded.None? then (s, Failed) else WithLedger(c, loaded.value)
    case Delete(at, save, applies) =>
      (Saved(s, save, Persisted([], Some(at)), None), Finish(save.Acknowledged? && applies))
    case Restart => (State(s.store, None, None), Done)
  }

  /** Ingests into a candidate rebuilt from the events, and saves the events that were new before anything else. */
  function Processed(c: Config, l: State, events: seq<Event>, save: Write, applies: bool): (State, Verdict)
    requires l.cache.Some?
  {
    if l.cache.value.deletedAt.Some? then (l, Blocked) else
    var candidate := Replay(c, l.cache.value.events);
    if candidate.BatchRefused? then (l, Failed) else
    var ingestion := IngestBatch(candidate.ledger, events, c.maxOperations);
    if ingestion.BatchRefused? then (l, Failed) else
    var next := Persisted(l.cache.value.events + Kept(events, ingestion.decisions), None);
    (Saved(l, save, next, Some(ingestion.ledger)), Finish(save.Acknowledged? && applies))
  }

  /** Refuses a deleted subject, and otherwise makes sure its ledger is built. */
  function WithLedger(c: Config, l: State): (State, Verdict)
    requires l.cache.Some?
  {
    if l.cache.value.deletedAt.Some? then (l, Blocked)
    else if l.ledger.Some? then (l, Done)
    else
      var replay := Replay(c, l.cache.value.events);
      if replay.BatchRefused? then (l, Failed) else (l.(ledger := Some(replay.ledger)), Done)
  }

  function Run(c: Config, s: State, calls: seq<Call>): State {
    if calls == [] then s else Step(c, Run(c, s, calls[..|calls| - 1]), calls[|calls| - 1]).0
  }

  /** The call works on the ledger, so a deleted subject must refuse it. */
  predicate LedgerWork(call: Call) {
    call.Process? || call.Synchronize? || call.ReadLedger?
  }

  // ---------------------------------------------------------------- ledgers and replay

  predicate Replayable(c: Config, p: Persisted) {
    Replay(c, p.events).Batch?
  }

  /** Stored and cached events rebuild, and a cached ledger is the one its cached events rebuild. */
  predicate Sound(c: Config, s: State) {
    && (s.store.Some? ==> Replayable(c, s.store.value))
    && (s.cache.Some? ==> Replayable(c, s.cache.value))
    && (s.ledger.Some? ==> s.cache.Some? && s.ledger.value == Replay(c, s.cache.value.events).ledger)
  }

  /** Keeping only the events that were new is enough to rebuild the candidate ledger. */
  lemma NextStateReplays(c: Config, stored: seq<Event>, events: seq<Event>)
    requires Replay(c, stored).Batch? && IngestBatch(Replay(c, stored).ledger, events, c.maxOperations).Batch?
    ensures var r := IngestBatch(Replay(c, stored).ledger, events, c.maxOperations);
      var again := Replay(c, stored + Kept(events, r.decisions));
      again.Batch? && again.ledger == r.ledger
  {
    var l := Replay(c, stored).ledger;
    var r := IngestBatch(l, events, c.maxOperations);
    KeptEventsSuffice(l, events, c.maxOperations);
    BatchConcat(EMPTY, stored, Kept(events, r.decisions), c.maxOperations);
  }

  lemma LoadingKeepsSound(c: Config, s: State, loads: bool)
    requires Sound(c, s) && Loaded(c, s, loads).Some?
    ensures Sound(c, Loaded(c, s, loads).value)
  {
  }

  lemma ProcessingKeepsSound(c: Config, l: State, events: seq<Event>, save: Write, applies: bool)
    requires Sound(c, l) && l.cache.Some?
    ensures Sound(c, Processed(c, l, events, save, applies).0)
  {
    var p := l.cache.value;
    if p.deletedAt.None? && IngestBatch(Replay(c, p.events).ledger, events, c.maxOperations).Batch? {
      NextStateReplays(c, p.events, events);
    }
  }

  /** Every call keeps the cached ledger equal to the replay of the cached events, duplicates dropped or not. */
  lemma StepKeepsSound(c: Config, s: State, call: Call)
    requires Sound(c, s)
    ensures Sound(c, Step(c, s, call).0)
  {
    match call
    case Process(events, loads, save, applies) =>
      if |events| <= c.batchLimit && Loaded(c, s, loads).Some? {
        LoadingKeepsSound(c, s, loads);
        ProcessingKeepsSound(c, Loaded(c, s, loads).value, events, save, applies);
      }
    case Synchronize(loads, _) =>
      if Loaded(c, s, loads).Some? {
        LoadingKeepsSound(c, s, loads);
      }
    case ReadLedger(loads) =>
      if Loaded(c, s, loads).Some? {
        LoadingKeepsSound(c, s, loads);
      }
    case Delete(at, _, _) =>
      assert Replay(c, []).Batch?;
    case Restart =>
  }

  lemma {:induction false} RunKeepsSound(c: Config, s: State, calls: seq<Call>)
    requires Sound(c, s)
    ensures Sound(c, Run(c, s, calls))
  {
    if calls != [] {
      RunKeepsSound(c, s, calls[..|calls| - 1]);
      StepKeepsSound(c, Run(c, s, calls[..|calls| - 1]), calls[|calls| - 1]);
    }
  }

  // ---------------------------------------------------------------- when work is done, and what it stores

  const NEW_SUBJECT := State(None, None, None)

  /** What a call has to go by: what is cached, else what the store answers, else the empty state where that is allowed. */
  function Known(c: Config, s: State, loads: bool): Option<Persisted> {
    if s.cache.Some? then s.cache
    else if !loads then None
    else if s.store.Some? then s.store
    else if c.allowEmpty then Some(Persisted([], None))
    else None
  }

  /** There is an active state to go by, whose events rebuild. */
  ghost predicate Active(c: Config, s: State, loads: bool) {
    var known := Known(c, s, loads);
    known.Some? && known.value.deletedAt.None? && Acceptable(known.value.events, c.maxOperations)
  }

  lemma ReplaysExactly(c: Config, events: seq<Event>)
    ensures Replay(c, events).Batch? <==> Acceptable(events, c.maxOperations)
  {
    AcceptedExactly(events, c.maxOperations);
  }

  lemma ContinuesExactly(c: Config, known: seq<Event>, events: seq<Event>)
    ensures Acceptable(known + events, c.maxOperations) <==>
            Replay(c, known).Batch? && IngestBatch(Replay(c, known).ledger, events, c.maxOperations).Batch?
  {
    AcceptedExactly(known + events, c.maxOperations);
    BatchConcat(EMPTY, known, events, c.maxOperations);
  }

  lemma LoadedIsKnown(c: Config, s: State, loads: bool)
    ensures var (known, loaded) := (Known(c, s, loads), Loaded(c, s, loads));
      && (loaded.Some? ==> known.Some? && loaded.value.store == s.store && loaded.value.cache == known)
      && (known.Some? && Acceptable(known.value.events, c.maxOperations) ==> loaded.Some?)
  {
    if s.store.Some? {
      ReplaysExactly(c, s.store.value.events);
    }
  }

  /** What is stored and cached once the events are taken. */
  ghost predicate Stores(c: Config, after: State, save: Write, known: Persisted, events: seq<Event>) {
    && after.store == Some(Persisted(known.events + News(known.events, events), None))
    && (save.Acknowledged? ==>
          after.cache == after.store && after.ledger.Some? &&
          var replay := Replay(c, after.store.value.events); replay.Batch? && after.ledger.value == replay.ledger)
  }

  ghost predicate Fits(c: Config, known: Persisted, events: seq<Event>) {
    known.deletedAt.None? && Acceptable(known.events + events, c.maxOperations)
  }

  lemma ProcessedExactly(c: Config, l: State, events: seq<Event>, save: Write, applies: bool)
    requires l.cache.Some?
    ensures var (known, (after, verdict)) := (l.cache.value, Processed(c, l, events, save, applies));
      && (verdict == Done <==> Fits(c, known, events) && save.Acknowledged? && applies)
      && (if Fits(c, known, events) && !save.Rejected? then Stores(c, after, save, known, events)
          else after.store == l.store && after.cache == l.cache)
  {
    var known := l.cache.value;
    ContinuesExactly(c, known.events, events);
    if Fits(c, known, events) {
      KeptAreTheNews(known.events, events, c.maxOperations);
      NextStateReplays(c, known.events, events);
    }
  }

  /**
   * Events are processed exactly when the batch fits, there is an active state, the events agree with it and fit the limit,
   * and the store and the profile do their part. Then the new ones among them are stored and cached behind the known ones,
   * and the ledger is what all of these rebuild; where anything but the profile fails, the store keeps what it had.
   */
  lemma ProcessesExactly(c: Config, s: State, events: seq<Event>, loads: bool, save: Write, applies: bool)
    ensures var (known, (after, verdict)) := (Known(c, s, loads), Step(c, s, Process(events, loads, save, applies)));
      var fits := |events| <= c.batchLimit && known.Some? && Fits(c, known.value, events);
      && (verdict == Done <==> fits && save.Acknowledged? && applies)
      && (if fits && !save.Rejected? then Stores(c, after, save, known.value, events)
          else after.store == s.store && (after.cache == s.cache || after.cache == known))
      && (|events| > c.batchLimit || known.None? ==> after == s)
  {
    LoadedIsKnown(c, s, loads);
    var known, loaded := Known(c, s, loads), Loaded(c, s, loads);
    if loaded.Some? {
      ProcessedExactly(c, loaded.value, events, save, applies);
    } else if known.Some? {
      ReplaysExactly(c, known.value.events);
      ContinuesExactly(c, known.value.events, events);
    }
  }

  /** The ledger is read and synchronized exactly when there is an active state, and neither writes to the store. */
  lemma ReadsExactly(c: Config, s: State, loads: bool, applies: bool)
    requires Sound(c, s)
    ensures var (after, verdict) := Step(c, s, ReadLedger(loads));
      && (verdict == Done <==> Active(c, s, loads)) && after.store == s.store
      && (verdict == Done ==> after.ledger == Some(Replay(c, Known(c, s, loads).value.events).ledger))
    ensures var (after, verdict) := Step(c, s, Synchronize(loads, applies));
      (verdict == Done <==> Active(c, s, loads) && applies) && after.store == s.store
  {
    LoadedIsKnown(c, s, loads);
    if Known(c, s, loads).Some? {
      ReplaysExactly(c, Known(c, s, loads).value.events);
    }
  }

  /** Where empty initialization is not allowed, a subject that was never stored is refused all work and nothing is stored, for ever. */
  lemma {:induction false} NewSubjectsNeedRecovery(c: Config, calls: seq<Call>, call: Call)
    requires !c.allowEmpty && forall x :: x in calls ==> !x.Delete?
    ensures Run(c, NEW_SUBJECT, calls) == State(None, None, None)
    ensures LedgerWork(call) ==> Step(c, Run(c, NEW_SUBJECT, calls), call) == (State(None, None, None), Failed)
  {
    if calls != [] {
      var n := |calls| - 1;
      assert calls[n] in calls && forall x :: x in calls[..n] ==> x in calls;
      NewSubjectsNeedRecovery(c, calls[..n], calls[n]);
    }
  }

  /** A new subject's work is done exactly where it is allowed to start empty and everything asked for it works. */
  lemma NewSubjectsStartExactly(c: Config, call: Call)
    requires LedgerWork(call)
    ensures Step(c, State(None, None, None), call).1 == Done <==>
      c.allowEmpty &&
      match call
      case Process(events, loads, save, applies) =>
        |events| <= c.batchLimit && Acceptable(events, c.maxOperations) && loads && save == Acknowledged && applies
      case Synchronize(loads, applies) => loads && applies
      case ReadLedger(loads) => loads
      case _ => false
  {
    ReplaysExactly(c, []);
    match call
    case Process(events, loads, save, applies) =>
      assert [] + events == events;
      ProcessesExactly(c, NEW_SUBJECT, events, loads, save, applies);
    case Synchronize(loads, applies) =>
      ReadsExactly(c, NEW_SUBJECT, loads, applies);
    case ReadLedger(loads) =>
      ReadsExactly(c, NEW_SUBJECT, loads, true);
  }

  /** Done means stored: every event of the batch is in the store behind what was known, and no barrier is. */
  lemma DoneMeansStored(c: Config, s: State, events: seq<Event>, loads: bool, save: Write, applies: bool)
    requires Step(c, s, Process(events, loads, save, applies)).1 == Done
    ensures var after := Step(c, s, Process(events, loads, save, applies)).0;
      && |events| <= c.batchLimit && after.store.Some? && after.store.value.deletedAt.None? && after.cache == after.store
      && forall e :: e in events ==> e in after.store.value.events
  {
    ProcessesExactly(c, s, events, loads, save, applies);
    NewsAddOnce(Known(c, s, loads).value.events, events, c.maxOperations);
  }

  ghost predicate NothingTwice(s: State) {
    (s.store.Some? ==> Once(s.store.value.events)) && (s.cache.Some? ==> Once(s.cache.value.events))
  }

  lemma StepStoresOnce(c: Config, s: State, call: Call)
    requires NothingTwice(s)
    ensures NothingTwice(Step(c, s, call).0)
  {
    if call.Process? {
      LoadedIsKnown(c, s, call.loads);
      var known := Known(c, s, call.loads);
      ProcessesExactly(c, s, call.events, call.loads, call.save, call.applies);
      if known.Some? && Acceptable(known.value.events + call.events, c.maxOperations) {
        NewsAddOnce(known.value.events, call.events, c.maxOperations);
      }
    }
  }

  /** Whatever is called, retried or lost, no operation is ever stored twice. */
  lemma {:induction false} NoOperationIsStoredTwice(c: Config, s: State, calls: seq<Call>)
    requires NothingTwice(s)
    ensures NothingTwice(Run(c, s, calls))
  {
    if calls != [] {
      NoOperationIsStoredTwice(c, s, calls[..|calls| - 1]);
      StepStoresOnce(c, Run(c, s, calls[..|calls| - 1]), calls[|calls| - 1]);
    }
  }

  // ---------------------------------------------------------------- cache and store

  /** What is cached is what is stored. */
  predicate InStep(s: State) {
    s.cache.Some? ==> s.cache == s.store || (s.store.None? && s.cache.value == NOTHING)
  }

  predicate Unreported(call: Call) {
    (call.Process? || call.Delete?) && call.save.Unacknowledged?
  }

  /** Only a write whose acknowledgement is lost brings cache and store apart; a restart brings them together. */
  lemma StepKeepsInStep(c: Config, s: State, call: Call)
    requires Sound(c, s)
    ensures InStep(s) && !Unreported(call) ==> InStep(Step(c, s, call).0)
    ensures call.Restart? ==> InStep(Step(c, s, call).0)
  {
  }

  /** Without lost acknowledgements the cached ledger is the replay of the persisted events in every reachable state. */
  lemma {:induction false} CachedLedgerIsReplayOfStore(c: Config, s: State, calls: seq<Call>)
    requires Sound(c, s) && s.cache.None? && forall call :: call in calls ==> !Unreported(call)
    ensures var t := Run(c, s, calls);
      var replay := Replay(c, if t.store.Some? then t.store.value.events else []);
      InStep(t) && (t.ledger.Some? ==> replay.Batch? && t.ledger.value == replay.ledger)
  {
    RunKeepsSound(c, s, calls);
    if calls != [] {
      var n := |calls| - 1;
      forall call | call in calls[..n]
        ensures !Unreported(call)
      {
        assert call in calls;
      }
      CachedLedgerIsReplayOfStore(c, s, calls[..n]);
      RunKeepsSound(c, s, calls[..n]);
      assert calls[n] in calls;
      StepKeepsInStep(c, Run(c, s, calls[..n]), calls[n]);
    }
  }

  // ---------------------------------------------------------------- persisted events

  /** The new stored state keeps the stored events as a prefix and the barrier as it was. */
  predicate Extends(before: Option<Persisted>, after: Option<Persisted>) {
    before.Some? ==>
      after.Some? && before.value.events <= after.value.events && after.value.deletedAt == before.value.deletedAt
  }

  /** No call but a deletion can take anything away from the store. */
  predicate Protected(s: State) {
    s.cache.None? || s.cache.value.deletedAt.Some?
    || Extends(s.store, s.cache)
  }

  /** Whatever is called next, short of a deletion, persisted events only grow exactly when the cache protects the store. */
  lemma GrowthExactly(c: Config, s: State)
    requires Sound(c, s)
    ensures (forall call: Call :: Extends(s.store, Step(c, s, call).0.store) || call.Delete?) <==> Protected(s)
  {
    if Protected(s) {
      forall call: Call | !call.Delete?
        ensures Extends(s.store, Step(c, s, call).0.store)
      {
      }
    } else {
      var call := Process([], true, Acknowledged, true);
      var p := s.cache.value;
      assert Kept([], []) == [];
      assert p.events + [] == p.events;
      assert Step(c, s, call).0.store == Some(p);
    }
  }

  /** Over any run without deletions and lost acknowledgements, restarts included, the stored events only grow. */
  lemma {:induction false} StoredEventsOnlyGrow(c: Config, s: State, calls: seq<Call>)
    requires Sound(c, s) && InStep(s) && forall call :: call in calls ==> !call.Delete? && !Unreported(call)
    ensures InStep(Run(c, s, calls)) && Extends(s.store, Run(c, s, calls).store)
  {
    if calls != [] {
      var n := |calls| - 1;
      forall call | call in calls[..n]
        ensures !call.Delete? && !Unreported(call)
      {
        assert call in calls;
      }
      StoredEventsOnlyGrow(c, s, calls[..n]);
      RunKeepsSound(c, s, calls[..n]);
      var before := Run(c, s, calls[..n]);
      InStepProtects(before);
      GrowthExactly(c, before);
      assert calls[n] in calls;
      StepKeepsInStep(c, before, calls[n]);
    }
  }

  /** What an engine that cached an active subject stores: the cached events and the new ones among these. */
  lemma ProcessingStores(c: Config, s: State, events: seq<Event>, loads: bool, save: Write)
    requires Sound(c, s) && s.cache.Some? && s.cache.value.deletedAt.None? && |events| <= c.batchLimit && !save.Rejected?
    requires IngestBatch(Replay(c, s.cache.value.events).ledger, events, c.maxOperations).Batch?
    ensures var decisions := IngestBatch(Replay(c, s.cache.value.events).ledger, events, c.maxOperations).decisions;
      var after := Step(c, s, Process(events, loads, save, true)).0;
      && after.store == Some(Persisted(s.cache.value.events + Kept(events, decisions), None))
      && after.cache == if save.Acknowledged? then after.store else s.cache
  {
  }

  /** If the acknowledgement of new events is lost, the next call that works stores what was cached before, without them. */
  lemma LostAcknowledgementLosesEvents(c: Config, s: State, events: seq<Event>)
    requires Sound(c, s) && InStep(s) && s.cache.Some? && s.cache.value.deletedAt.None? && |events| <= c.batchLimit
    requires IngestBatch(Replay(c, s.cache.value.events).ledger, events, c.maxOperations).Batch?
    ensures var decisions := IngestBatch(Replay(c, s.cache.value.events).ledger, events, c.maxOperations).decisions;
      var unreported := Step(c, s, Process(events, true, Unacknowledged, true)).0;
      var (after, verdict) := Step(c, unreported, Process([], true, Acknowledged, true));
      && unreported.store.value.events == s.cache.value.events + Kept(events, decisions)
      && verdict == Done && after.store.value.events == s.cache.value.events
  {
    ProcessingStores(c, s, events, true, Unacknowledged);
    assert Kept([], []) == [];
    assert s.cache.value.events + [] == s.cache.value.events;
  }

  /** So a new subject's first event can be stored and lost again. */
  lemma AnEventCanBeLost(c: Config, e: Event)
    requires c.allowEmpty && c.batchLimit >= 1 && c.maxOperations >= 1
    ensures var calls := [Synchronize(true, true), Process([e], true, Unacknowledged, true), Process([], true, Acknowledged, true)];
      var empty := State(None, None, None);
      && Run(c, empty, calls[..2]).store == Some(Persisted([e], None))
      && Run(c, empty, calls).store == Some(NOTHING)
  {
    var calls := [Synchronize(true, true), Process([e], true, Unacknowledged, true), Process([], true, Acknowledged, true)];
    var empty := State(None, None, None);
    assert calls[..3] == calls && calls[..0] == [];
    RunStep(c, empty, calls, 0);
    RunStep(c, empty, calls, 1);
    RunStep(c, empty, calls, 2);
    var loaded := Run(c, empty, calls[..1]);
    assert Replay(c, []) == Batch(EMPTY, []);
    assert loaded == State(None, Some(NOTHING), Some(EMPTY));
    OneEventIsKept(c, e);
    LostAcknowledgementLosesEvents(c, loaded, [e]);
  }

  lemma OneEventIsKept(c: Config, e: Event)
    requires c.maxOperations >= 1
    ensures var r := IngestBatch(EMPTY, [e], c.maxOperations); r.Batch? && Kept([e], r.decisions) == [e]
  {
    assert [e][..0] == [];
    assert IngestBatch(EMPTY, [], c.maxOperations) == Batch(EMPTY, []);
  }

  // ---------------------------------------------------------------- the deletion barrier

  predicate Barred(s: State) {
    s.store.Some? && s.store.value.deletedAt.Some?
  }

  /** The barrier is stored and no cached state can get around it. */
  predicate Sealed(s: State) {
    Barred(s) && (s.cache.Some? ==> s.cache.value.deletedAt.Some?)
  }

  /** The i-th call leaves the barrier in the store, and is refused if it is work on the ledger. */
  ghost predicate BarredAt(c: Config, s: State, calls: seq<Call>, i: nat)
    requires i < |calls|
  {
    && Barred(Run(c, s, calls[..i + 1]))
    && (LedgerWork(calls[i]) ==> Step(c, Run(c, s, calls[..i]), calls[i]).1 != Done)
  }

  ghost predicate StaysBarred(c: Config, s: State, calls: seq<Call>) {
    forall i :: 0 <= i < |calls| ==> BarredAt(c, s, calls, i)
  }

  lemma SealedStep(c: Config, s: State, call: Call)
    requires Sealed(s)
    ensures Sealed(Step(c, s, call).0)
    ensures LedgerWork(call) ==> Step(c, s, call).1 != Done
  {
  }

  lemma {:induction false} SealedRun(c: Config, s: State, calls: seq<Call>)
    requires Sealed(s)
    ensures Sealed(Run(c, s, calls))
  {
    if calls != [] {
      SealedRun(c, s, calls[..|calls| - 1]);
      SealedStep(c, Run(c, s, calls[..|calls| - 1]), calls[|calls| - 1]);
    }
  }

  /** A stored barrier holds for ever, whatever is called, exactly when no active state is still cached. */
  lemma BarrierHoldsExactly(c: Config, s: State)
    requires Sound(c, s) && Barred(s)
    ensures (forall calls :: StaysBarred(c, s, calls)) <==> Sealed(s)
  {
    if Sealed(s) {
      forall calls
        ensures StaysBarred(c, s, calls)
      {
        forall i | 0 <= i < |calls|
          ensures BarredAt(c, s, calls, i)
        {
          SealedRun(c, s, calls[..i]);
          SealedRun(c, s, calls[..i + 1]);
          SealedStep(c, Run(c, s, calls[..i]), calls[i]);
        }
      }
    } else {
      var call := Process([], true, Acknowledged, true);
      assert [call][..0] == [] && [call][..1] == [call];
      assert Kept([], []) == [];
      assert s.cache.value.events + [] == s.cache.value.events;
      assert Run(c, s, []) == s;
      assert Step(c, s, call).1 == Done;
      assert !BarredAt(c, s, [call], 0);
      assert !StaysBarred(c, s, [call]);
    }
  }

  /** A deletion whose barrier was acknowledged seals the subject, and so does one that found nothing cached. */
  lemma DeletionSeals(c: Config, s: State, call: Call)
    requires call.Delete?
    ensures call.save.Acknowledged? ==> Sealed(Step(c, s, call).0)
    ensures call.save.Unacknowledged? && s.cache.None? ==> Sealed(Step(c, s, call).0)
  {
  }

  /** An acknowledgement lost while the subject is cached does not: the next work goes through and overwrites the barrier. */
  lemma LostAcknowledgementUnseals(c: Config, s: State, at: Timestamp)
    requires Sound(c, s) && s.cache.Some? && s.cache.value.deletedAt.None?
    ensures var deleted := Step(c, s, Delete(at, Unacknowledged, true)).0;
      var (after, verdict) := Step(c, deleted, Process([], true, Acknowledged, true));
      Barred(deleted) && verdict == Done && !Barred(after)
  {
    assert Kept([], []) == [];
    assert s.cache.value.events + [] == s.cache.value.events;
  }

  // ---------------------------------------------------------------- callers that finish what they delete

  /** A deletion was attempted and its barrier not yet acknowledged in this process. */
  function Unfinished(calls: seq<Call>): bool {
    if calls == [] then false
    else match calls[|calls| - 1]
      case Delete(_, save, _) => save != Acknowledged
      case Restart => false
      case _ => Unfinished(calls[..|calls| - 1])
  }

  predicate StartsFinished(calls: seq<Call>, i: nat)
    requires i < |calls|
  {
    LedgerWork(calls[i]) ==> !Unfinished(calls[..i])
  }

  /** The caller starts no work on the ledger while a deletion is unfinished. */
  ghost predicate FinishesDeletions(calls: seq<Call>) {
    forall i {:trigger StartsFinished(calls, i)} :: 0 <= i < |calls| ==> StartsFinished(calls, i)
  }

  lemma FinishedPrefix(calls: seq<Call>, j: nat)
    requires FinishesDeletions(calls) && j <= |calls|
    ensures FinishesDeletions(calls[..j])
  {
    forall i | 0 <= i < j
      ensures StartsFinished(calls[..j], i)
    {
      assert calls[..j][..i] == calls[..i] && calls[..j][i] == calls[i];
      assert StartsFinished(calls, i);
    }
  }

  lemma BarredStep(c: Config, s: State, call: Call, unfinished: bool)
    requires Barred(s) ==> Sealed(s) || unfinished
    requires LedgerWork(call) ==> !unfinished
    ensures Barred(Step(c, s, call).0) ==>
      Sealed(Step(c, s, call).0) || (call.Delete? && !call.save.Acknowledged?)
  {
  }

  lemma {:induction false} BarredOnlyWhileSealedOrUnfinished(c: Config, s: State, calls: seq<Call>)
    requires InStep(s) && FinishesDeletions(calls)
    ensures Barred(Run(c, s, calls)) ==> Sealed(Run(c, s, calls)) || Unfinished(calls)
  {
    if calls != [] {
      var n := |calls| - 1;
      FinishedPrefix(calls, n);
      BarredOnlyWhileSealedOrUnfinished(c, s, calls[..n]);
      assert StartsFinished(calls, n);
      BarredStep(c, Run(c, s, calls[..n]), calls[n], Unfinished(calls[..n]));
    }
  }

  /** For such a caller the barrier, once stored, refuses all later work, lost acknowledgements or not. */
  lemma FinishingCallersKeepTheBarrier(c: Config, s: State, calls: seq<Call>, i: nat, j: nat)
    requires InStep(s) && FinishesDeletions(calls) && i <= j < |calls|
    requires Barred(Run(c, s, calls[..i])) && LedgerWork(calls[j])
    ensures Step(c, Run(c, s, calls[..j]), calls[j]).1 != Done
  {
    BarredStays(c, s, calls, i, j);
    NoWorkWhileUnsealed(c, s, calls, j);
    SealedStep(c, Run(c, s, calls[..j]), calls[j]);
  }

  lemma {:induction false} BarredStays(c: Config, s: State, calls: seq<Call>, i: nat, j: nat)
    requires InStep(s) && FinishesDeletions(calls) && i <= j <= |calls| && Barred(Run(c, s, calls[..i]))
    ensures Barred(Run(c, s, calls[..j]))
  {
    if i < j {
      BarredStays(c, s, calls, i, j - 1);
      RunStep(c, s, calls, j - 1);
      NoWorkWhileUnsealed(c, s, calls, j - 1);
      FinishingStepStaysBarred(c, Run(c, s, calls[..j - 1]), calls[j - 1]);
    }
  }

  lemma RunStep(c: Config, s: State, calls: seq<Call>, j: nat)
    requires j < |calls|
    ensures Run(c, s, calls[..j + 1]) == Step(c, Run(c, s, calls[..j]), calls[j]).0
  {
    assert calls[..j + 1][..j] == calls[..j];
  }

  lemma NoWorkWhileUnsealed(c: Config, s: State, calls: seq<Call>, j: nat)
    requires InStep(s) && FinishesDeletions(calls) && j < |calls| && Barred(Run(c, s, calls[..j]))
    ensures Sealed(Run(c, s, calls[..j])) || !LedgerWork(calls[j])
  {
    FinishedPrefix(calls, j);
    BarredOnlyWhileSealedOrUnfinished(c, s, calls[..j]);
    assert StartsFinished(calls, j);
  }

  lemma FinishingStepStaysBarred(c: Config, s: State, call: Call)
    requires Barred(s) && (Sealed(s) || !LedgerWork(call))
    ensures Barred(Step(c, s, call).0)
  {
  }

  /** A cache in step with the store protects what is stored. */
  lemma InStepProtects(s: State)
    requires InStep(s)
    ensures Protected(s)
  {
  }
}
