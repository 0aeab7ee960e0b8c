/** The engine as the program runs it: three maps, updated around store writes that may fail. */
module EngineOrchestrators {
  import opened Options
  import opened SignalLedger
  import opened Engine

  function Lookup<K, V>(m: map<K, V>, k: K): Option<V> {
    if k in m then Some(m[k]) else None
  }

  class EngineOrchestrator {
    const config: Config
    var stateStore: map<SubjectId, Persisted>   // outlives this process
    var states: map<SubjectId, Persisted>
    var ledgers: map<SubjectId, Ledger>

    function Subject(id: SubjectId): State
      reads this
    {
      State(Lookup(stateStore, id), Lookup(states, id), Lookup(ledgers, id))
    }

    /** A process that starts over a store, with nothing cached. */
    constructor (config: Config, stateStore: map<SubjectId, Persisted>)
      ensures this.config == config
      ensures forall id :: Subject(id) == State(Lookup(stateStore, id), None, None)
    {
      this.config := config;
      this.stateStore := stateStore;
      states := map[];
      ledgers := map[];
    }

    method LoadState(id: SubjectId) returns (state: Option<Persisted>, ghost loads: bool)
      modifies `states, `ledgers
      ensures var loaded := Loaded(config, old(Subject(id)), loads);
        if loaded.None? then state.None? && Subject(id) == old(Subject(id))
        else Subject(id) == loaded.value && state == loaded.value.cache
      ensures forall other :: other != id ==> Subject(other) == old(Subject(other))
      ensures !config.allowEmpty && old(Subject(id)) == State(None, None, None) ==>
        state.None? && Subject(id) == State(None, None, None)
    {
      loads := true;
      if id in states {
        return Some(states[id]), true;
      }
      var answered: bool := *;
      if !answered {
        return None, false;
      }
      if id !in stateStore {
        if !config.allowEmpty {
          return None, true;
        }
        states := states[id := NOTHING];
        ledgers := ledgers[id := EMPTY];
        return Some(NOTHING), true;
      }
      var restored := stateStore[id];
      var replay := Replay(config, restored.events);
      if replay.BatchRefused? {
        return None, true;
      }
      states := states[id := restored];
      ledgers := ledgers[id := replay.ledger];
      state := Some(restored);
    }

    /** The durable write: it may be lost, and so may the news of its success. */
    method Save(id: SubjectId, next: Persisted) returns (save: Write)
      modifies `stateStore
      ensures stateStore == if save.Rejected? then old(stateStore) else old(stateStore)[id := next]
    {
      var reached: bool, reported: bool := *, *;
      if reached {
        stateStore := stateStore[id := next];
      }
      save := if !reached then Rejected else if reported then Acknowledged else Unacknowledged;
    }

    method Process(id: SubjectId, events: seq<Event>) returns (verdict: Verdict, ghost call: Call)
      modifies this
      ensures call.Process? && call.events == events
      ensures (Subject(id), verdict) == Step(config, old(Subject(id)), call)
      ensures forall other :: other != id ==> Subject(other) == old(Subject(other))
      ensures |events| > config.batchLimit || (!config.allowEmpty && old(Subject(id)) == State(None, None, None)) ==>
        verdict == Failed && Subject(id) == old(Subject(id))
      ensures verdict == Done ==>
        id in stateStore && stateStore[id].deletedAt.None? && forall e :: e in events ==> e in stateStore[id].events
    {
      call := Call.Process(events, true, Rejected, true);
      if |events| > config.batchLimit {
        return Failed, call;
      }
      var state, loads := LoadState(id);
      call := Call.Process(events, loads, Rejected, true);
      if state.None? {
        return Failed, call;
      }
      if state.value.deletedAt.Some? {
        return Blocked, call;
      }
      var candidate := Replay(config, state.value.events);
      if candidate.BatchRefused? {
        return Failed, call;
      }
      var ingestion := IngestBatch(candidate.ledger, events, config.maxOperations);
      if ingestion.BatchRefused? {
        return Failed, call;
      }
      var next := Persisted(state.value.events + Kept(events, ingestion.decisions), None);
      var save := Save(id, next);
      call := Call.Process(events, loads, save, true);
      if save != Acknowledged {
        return Failed, call;
      }
      states := states[id := next];
      ledgers := ledgers[id := ingestion.ledger];
      var applies: bool := *;
      call := Call.Process(events, loads, save, applies);
      verdict := if applies then Done else Failed;
      if applies {
        DoneMeansStored(config, old(Subject(id)), events, loads, save, applies);
      }
    }

    method Synchronize(id: SubjectId) returns (verdict: Verdict, ghost call: Call)
      modifies `states, `ledgers
      ensures call.Synchronize?
      ensures (Subject(id), verdict) == Step(config, old(Subject(id)), call)
      ensures forall other :: other != id ==> Subject(other) == old(Subject(other))
      ensures !config.allowEmpty && old(Subject(id)) == State(None, None, None) ==>
        verdict == Failed && Subject(id) == State(None, None, None)
    {
      var state, loads := LoadState(id);
      call := Call.Synchronize(loads, true);
      if state.None? {
        return Failed, call;
      }
      if state.value.deletedAt.Some? {
        return Blocked, call;
      }
      if id !in ledgers {
        var replay := Replay(config, state.value.events);
        if replay.BatchRefused? {
          return Failed, call;
        }
        ledgers := ledgers[id := replay.ledger];
      }
      var applies: bool := *;
      call := Call.Synchronize(loads, applies);
      verdict := if applies then Done else Failed;
    }

    method ReadLedgerSnapshot(id: SubjectId) returns (snapshot: Option<Ledger>, ghost call: Call)
      modifies `states, `ledgers
      ensures call.ReadLedger?
      ensures var (after, verdict) := Step(config, old(Subject(id)), call);
        Subject(id) == after && snapshot == if verdict.Done? then after.ledger else None
      ensures forall other :: other != id ==> Subject(other) == old(Subject(other))
      ensures !config.allowEmpty && old(Subject(id)) == State(None, None, None) ==>
        snapshot.None? && Subject(id) == State(None, None, None)
    {
      var state, loads := LoadState(id);
      call := Call.ReadLedger(loads);
      if state.None? || state.value.deletedAt.Some? {
        return None, call;
      }
      if id !in ledgers {
        var replay := Replay(config, state.value.events);
        if replay.BatchRefused? {
          return None, call;
        }
        ledgers := ledgers[id := replay.ledger];
      }
      snapshot := Some(ledgers[id]);
    }

    method DeleteSubject(id: SubjectId, at: Timestamp) returns (verdict: Verdict, ghost call: Call)
      modifies this
      ensures call.Delete? && call.at == at
      ensures (Subject(id), verdict) == Step(config, old(Subject(id)), call)
      ensures forall other :: other != id ==> Subject(other) == old(Subject(other))
      ensures verdict == Done ==> Subject(id) == State(Some(Persisted([], Some(at))), Some(Persisted([], Some(at))), None)
    {
      var barrier := Persisted([], Some(at));
      var save := Save(id, barrier);
      call := Delete(at, save, true);
      if save != Acknowledged {
        return Failed, call;
      }
      states := states[id := barrier];
      ledgers := ledgers - {id};
      var applies: bool := *;
      call := Delete(at, save, applies);
      verdict := if applies then Done else Failed;
    }
  }
}
