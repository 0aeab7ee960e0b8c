/** The invalidation orchestrator as the program runs it. Every await may fail, before or after it took effect. */
module DerivedStateOrchestrators {
  import opened Options
  import opened DerivedState
  import Engine
  import SignalLedger

  type SubjectId = Engine.SubjectId

  /** Whether anything was invalidated, for which profile, which targets in order, and why. */
  datatype Propagation = Propagation(changed: bool, digest: Digest, invalidated: seq<Target>, reason: Option<Reason>)

  datatype Result<+T> = Returned(value: T) | Threw

  class DerivedStateOrchestrator {
    var tasks: map<SubjectId, Task>
    var checkpoints: map<SubjectId, Digest>
    ghost var logs: map<SubjectId, Log>
    ghost var failures: nat

    ghost function LogOf(id: SubjectId): Log
      reads `logs
    {
      if id in logs then logs[id] else []
    }

    function Stored(id: SubjectId): Durable
      reads `tasks, `checkpoints
    {
      Durable(if id in tasks then Some(tasks[id]) else None, if id in checkpoints then Some(checkpoints[id]) else None)
    }

    /** The subject's effects follow the protocol, and the stores hold what those effects left. */
    ghost predicate Follows(id: SubjectId)
      reads `tasks, `checkpoints, `logs
    {
      Legal(LogOf(id)) && Stored(id) == After(LogOf(id))
    }

    ghost predicate Valid()
      reads `tasks, `checkpoints, `logs
    {
      forall id :: Follows(id)
    }

    constructor ()
      ensures Valid() && failures == 0 && forall id :: LogOf(id) == []
    {
      tasks, checkpoints, logs, failures := map[], map[], map[], 0;
    }

    /** Only id's stores and history changed, the history by growing. */
    twostate predicate Touched(id: SubjectId)
      reads `tasks, `checkpoints, `logs
    {
      && old(LogOf(id)) <= LogOf(id)
      && (forall other :: other != id ==> LogOf(other) == old(LogOf(other)) && Stored(other) == old(Stored(other)))
    }

    twostate lemma OthersStillFollow(id: SubjectId)
      requires old(Valid()) && Touched(id) && Follows(id)
      ensures Valid()
    {
      forall other
        ensures Follows(other)
      {
        assert old(Follows(other));
      }
    }

    ghost method Record(id: SubjectId, a: Action)
      requires Legal(LogOf(id)) && Allowed(LogOf(id), a)
      modifies `logs
      ensures LogOf(id) == old(LogOf(id)) + [a] && Legal(LogOf(id)) && After(LogOf(id)) == Effect(After(old(LogOf(id))), a)
      ensures forall other :: other != id ==> LogOf(other) == old(LogOf(other))
    {
      LegalExtends(LogOf(id), a);
      logs := logs[id := LogOf(id) + [a]];
    }

    // -------------------------------------------------------------- awaits

    /** The outcome of one await: whether it took effect, and whether the caller hears that it did. */
    method Await() returns (happened: bool, ok: bool)
      modifies `failures
      ensures ok ==> happened && failures == old(failures)
      ensures !ok ==> failures > old(failures)
    {
      happened, ok := *, *;
      ok := ok && happened;
      if !ok {
        failures := failures + 1;
      }
    }

    method SaveTask(id: SubjectId, task: Task) returns (ok: bool)
      requires Valid() && Follows(id) && Allowed(LogOf(id), StoreTask(task))
      modifies this
      ensures Valid() && Follows(id) && Touched(id)
      ensures ok ==> LogOf(id) == old(LogOf(id)) + [StoreTask(task)] && failures == old(failures)
      ensures !ok ==> failures > old(failures)
    {
      var happened;
      happened, ok := Await();
      if happened {
        tasks := tasks[id := task];
        Record(id, StoreTask(task));
      }
      OthersStillFollow(id);
    }

    method DeleteTask(id: SubjectId) returns (ok: bool)
      requires Valid() && Follows(id) && Allowed(LogOf(id), ClearTask)
      modifies this
      ensures Valid() && Follows(id) && Touched(id)
      ensures ok ==> LogOf(id) == old(LogOf(id)) + [ClearTask] && failures == old(failures)
      ensures !ok ==> failures > old(failures)
    {
      var happened;
      happened, ok := Await();
      if happened {
        tasks := tasks - {id};
        Record(id, ClearTask);
      }
      OthersStillFollow(id);
    }

    method SaveCheckpoint(id: SubjectId, digest: Digest) returns (ok: bool)
      requires Valid() && Follows(id) && Allowed(LogOf(id), Action.SaveCheckpoint(digest))
      modifies this
      ensures Valid() && Follows(id) && Touched(id)
      ensures ok ==> LogOf(id) == old(LogOf(id)) + [Action.SaveCheckpoint(digest)] && failures == old(failures)
      ensures !ok ==> failures > old(failures)
    {
      var happened;
      happened, ok := Await();
      if happened {
        checkpoints := checkpoints[id := digest];
        Record(id, Action.SaveCheckpoint(digest));
      }
      OthersStillFollow(id);
    }

    method DeleteCheckpoint(id: SubjectId) returns (ok: bool)
      requires Valid() && Follows(id) && Allowed(LogOf(id), DropCheckpoint)
      modifies this
      ensures Valid() && Follows(id) && Touched(id)
      ensures ok ==> LogOf(id) == old(LogOf(id)) + [DropCheckpoint] && failures == old(failures)
      ensures !ok ==> failures > old(failures)
    {
      var happened;
      happened, ok := Await();
      if happened {
        checkpoints := checkpoints - {id};
        Record(id, DropCheckpoint);
      }
      OthersStillFollow(id);
    }

    /** Records an effect on something other than the stores. */
    ghost method RecordOut(id: SubjectId, a: Action)
      requires Valid() && Follows(id) && Allowed(LogOf(id), a) && Effect(After(LogOf(id)), a) == After(LogOf(id))
      modifies `logs
      ensures Valid() && Follows(id) && Touched(id)
      ensures LogOf(id) == old(LogOf(id)) + [a]
    {
      Record(id, a);
      OthersStillFollow(id);
    }

    /** A call out that leaves the stores alone: an invalidator or the engine. */
    method CallOut(id: SubjectId, ghost succeeded: Action, ghost failed: Action) returns (ok: bool)
      requires Valid() && Follows(id) && Allowed(LogOf(id), succeeded) && Allowed(LogOf(id), failed)
      requires Effect(After(LogOf(id)), succeeded) == Effect(After(LogOf(id)), failed) == After(LogOf(id))
      modifies this
      ensures Valid() && Follows(id) && Touched(id) && Stored(id) == old(Stored(id))
      ensures ok ==> LogOf(id) == old(LogOf(id)) + [succeeded] && failures == old(failures)
      ensures !ok ==> failures > old(failures)
    {
      var happened;
      happened, ok := Await();
      if happened {
        RecordOut(id, if ok then succeeded else failed);
      }
    }

    // -------------------------------------------------------------- draining and recovering

    /** Invalidates one pending target and stores the task without it. */
    method DrainTarget(id: SubjectId, task: Task, x: Target) returns (ok: bool, next: Task)
      requires Valid() && Follows(id) && Stored(id).task == Some(task)
      requires task.phase.DerivedInvalidationPending? && x in task.pending
      modifies this
      ensures Valid() && Follows(id) && Touched(id)
      ensures next == task.(pending := Without(task.pending, x))
      ensures ok ==> Stored(id).task == Some(next) && failures == old(failures)
      ensures ok ==> Grew(old(LogOf(id)), [Invalidate(x, task.digest), StoreTask(next)], LogOf(id))
      ensures !ok ==> failures > old(failures)
    {
      next := task.(phase := DerivedInvalidationPending, pending := Without(task.pending, x));
      ok := CallOut(id, Invalidate(x, task.digest), Invalidate(x, task.digest));
      if ok {
        ok := SaveTask(id, next);
      }
    }

    /** With nothing pending, settles the checkpoint and then forgets the task. */
    method Settle(id: SubjectId, task: Task, deletion: bool) returns (ok: bool)
      requires Valid() && Follows(id) && Stored(id).task == Some(task)
      requires task.phase.DerivedInvalidationPending? && task.pending == [] && deletion == Deletion(task)
      modifies this
      ensures Valid() && Follows(id) && Touched(id)
      ensures ok ==> Stored(id) == Durable(None, if deletion then None else Some(task.digest)) && failures == old(failures)
      ensures ok ==> Grew(old(LogOf(id)), SettleSteps(task), LogOf(id))
      ensures !ok ==> failures > old(failures)
    {
      if deletion {
        ok := DeleteCheckpoint(id);
      } else {
        ok := SaveCheckpoint(id, task.digest);
      }
      if ok {
        ok := DeleteTask(id);
      }
    }

    /** Invalidates the pending targets one by one, storing the shorter task after each. */
    method DrainPending(id: SubjectId, taskInput: Task) returns (ok: bool, completed: seq<Target>)
      requires Valid() && Follows(id) && Stored(id).task == Some(taskInput)
      requires taskInput.phase.DerivedInvalidationPending? && NoRepeats(taskInput.pending)
      modifies this
      ensures Valid() && Follows(id) && Touched(id)
      ensures ok ==> failures == old(failures) && Stored(id).task == Some(taskInput.(pending := [])) && completed == taskInput.pending
      ensures ok ==> Grew(old(LogOf(id)), DrainSteps(taskInput, |taskInput.pending|), LogOf(id))
      ensures !ok ==> failures > old(failures)
    {
      var task := taskInput;
      var targets := task.pending;
      ok, completed := true, [];
      assert targets[0..] == targets;
      for i := 0 to |targets|
        invariant Valid() && Follows(id) && Touched(id) && ok && failures == old(failures)
        invariant Stored(id).task == Some(task)
        invariant task == taskInput.(pending := targets[i..])
        invariant completed == targets[..i]
        invariant Grew(old(LogOf(id)), DrainSteps(taskInput, i), LogOf(id))
      {
        var x := targets[i];
        ghost var before := LogOf(id);
        DropAt(targets, i);
        ok, task := DrainTarget(id, task, x);
        if !ok {
          return;
        }
        completed := completed + [x];
        GrewOn(old(LogOf(id)), DrainSteps(taskInput, i), before, [Invalidate(x, taskInput.digest), StoreTask(task)], LogOf(id));
      }
      assert targets[..|targets|] == targets;
    }

    /** Drains what is pending, settles the checkpoint and forgets the task. */
    method DrainDerived(id: SubjectId, taskInput: Task, deletion: bool) returns (r: Result<Propagation>)
      requires Valid() && Follows(id) && Stored(id).task == Some(taskInput)
      requires taskInput.phase.DerivedInvalidationPending? && NoRepeats(taskInput.pending) && deletion == Deletion(taskInput)
      modifies this
      ensures Valid() && Follows(id) && Touched(id)
      ensures if r.Threw? then failures > old(failures) else failures == old(failures)
      ensures r.Returned? ==>
        && r.value == Propagation(true, taskInput.digest, taskInput.pending, Some(taskInput.reason))
        && Stored(id) == Durable(None, if deletion then None else Some(taskInput.digest))
        && Grew(old(LogOf(id)), DerivedSteps(taskInput), LogOf(id))
    {
      var ok, completed := DrainPending(id, taskInput);
      if !ok {
        return Threw;
      }
      ghost var drained := LogOf(id);
      var task := taskInput.(pending := []);
      ok := Settle(id, task, deletion);
      if !ok {
        return Threw;
      }
      GrewOn(old(LogOf(id)), DrainSteps(taskInput, |taskInput.pending|), drained, SettleSteps(taskInput), LogOf(id));
      r := Returned(Propagation(true, task.digest, completed, Some(task.reason)));
    }

    /** The engine's deletion: it reports success only once barrier and profile are dealt with. */
    method EngineDelete(id: SubjectId, at: Engine.Timestamp) returns (ok: bool)
      requires Valid() && Follows(id)
      requires Stored(id).task.Some? && Stored(id).task.value.phase.EngineDeletionPending?
      modifies this
      ensures Valid() && Follows(id) && Touched(id) && Stored(id) == old(Stored(id))
      ensures ok ==> LogOf(id) == old(LogOf(id)) + [EngineCall(Engine.Delete(at, Engine.Acknowledged, true))]
      ensures ok ==> failures == old(failures)
      ensures !ok ==> failures > old(failures)
    {
      ghost var done := Engine.Delete(at, Engine.Acknowledged, true);
      ghost var save: Engine.Write, applies: bool := *, *;
      ok := CallOut(id, EngineCall(done), EngineCall(Engine.Delete(at, save, applies)));
    }

    /** Any other use of the engine. On success it yields the digest of the subject's profile. */
    method EngineWork(id: SubjectId, ghost asked: Action, ghost failed: Action) returns (ok: bool, digest: Digest)
      requires Valid() && Follows(id) && Stored(id).task.None? && Work(asked) && Work(failed)
      modifies this
      ensures Valid() && Follows(id) && Touched(id) && Stored(id) == old(Stored(id))
      ensures ok ==> LogOf(id) == old(LogOf(id)) + [asked, Answered(digest)] && failures == old(failures)
      ensures !ok ==> failures > old(failures)
    {
      ok := CallOut(id, asked, failed);
      digest := *;
      if ok {
        RecordOut(id, Answered(digest));
      }
    }

    /** Deletes in the engine, and then stores that every target is pending. */
    method DeleteInEngine(id: SubjectId, task: Task) returns (ok: bool)
      requires Valid() && Follows(id) && Stored(id).task == Some(task)
      requires task.phase.EngineDeletionPending? && task.intent.Some?
      modifies this
      ensures Valid() && Follows(id) && Touched(id)
      ensures ok ==> Stored(id).task == Some(Deleted(task)) && failures == old(failures)
      ensures ok ==> Grew(old(LogOf(id)),
        [EngineCall(Engine.Delete(task.intent.value, Engine.Acknowledged, true)), StoreTask(Deleted(task))], LogOf(id))
      ensures !ok ==> failures > old(failures)
    {
      ok := EngineDelete(id, task.intent.value);
      if ok {
        ok := SaveTask(id, task.(phase := DerivedInvalidationPending, pending := TARGETS));
      }
    }

    method ResumeTask(id: SubjectId, taskInput: Task) returns (r: Result<Propagation>, engineDeleted: bool)
      requires Valid() && Follows(id) && Stored(id).task == Some(taskInput)
      modifies this
      ensures Valid() && Follows(id) && Touched(id)
      ensures if r.Threw? then failures > old(failures) else failures == old(failures)
      ensures r.Returned? ==>
        && Stored(id) == Durable(None, if Deletion(taskInput) then None else Some(taskInput.digest))
        && engineDeleted == taskInput.phase.EngineDeletionPending?
        && r.value == Propagation(true, taskInput.digest, if engineDeleted then TARGETS else taskInput.pending, Some(taskInput.reason))
      ensures r.Returned? ==>
        Grew(old(LogOf(id)), FinishSteps(taskInput), LogOf(id)) && (engineDeleted ==> taskInput.intent.Some?)
    {
      StoredTaskIsWellFormed(LogOf(id));
      engineDeleted := taskInput.phase.EngineDeletionPending?;
      if engineDeleted {
        var ok := DeleteInEngine(id, taskInput);
        if !ok {
          return Threw, engineDeleted;
        }
        ghost var mid := LogOf(id);
        var task := taskInput.(phase := DerivedInvalidationPending, pending := TARGETS);
        r := DrainDerived(id, task, Deletion(task));
        if r.Returned? {
          GrewOn(old(LogOf(id)), FinishSteps(taskInput)[..2], mid, DerivedSteps(task), LogOf(id));
        }
      } else {
        r := DrainDerived(id, taskInput, Deletion(taskInput));
      }
    }

    /** What finishing a stored task reports: its digest and reason, and its targets, all if the engine had still to delete. */
    function Finished(t: Task): Propagation {
      Propagation(true, t.digest, if t.phase.EngineDeletionPending? then TARGETS else t.pending, Some(t.reason))
    }

    /** The digest that is settled once a stored task, if there is one, is finished: none after a deletion. */
    function Settled(d: Durable): Option<Digest> {
      if d.task.None? then d.checkpoint
      else if d.task.value.reason == DeletionRequested then None
      else Some(d.task.value.digest)
    }

    /** Finishes whatever was left behind. It succeeds unless an await fails, and then nothing is pending. */
    method RecoverPending(id: SubjectId) returns (r: Result<Option<Propagation>>)
      requires Valid() && Follows(id)
      modifies this
      ensures Valid() && Follows(id) && Touched(id)
      ensures if r.Threw? then failures > old(failures) else failures == old(failures)
      ensures r.Returned? ==> Stored(id).task.None?
      ensures r.Returned? && old(Stored(id)).task.None? ==> r.value.None? && Stored(id) == old(Stored(id))
      ensures r.Returned? && old(id in tasks) ==>
        && (var t := old(tasks[id]);
            r.value == Some(Propagation(true, t.digest, if t.phase.EngineDeletionPending? then TARGETS else t.pending, Some(t.reason))))
        && Stored(id).checkpoint == (if Deletion(old(tasks[id])) then None else Some(old(tasks[id]).digest))
        && AllInvalidated(LogOf(id), |old(LogOf(id))|, r.value.value.invalidated, r.value.value.digest)
    {
      var happened, ok := Await();
      if !ok {
        return Threw;
      }
      if id !in tasks {
        return Returned(None);
      }
      ghost var task := tasks[id];
      var resumed, engineDeleted := ResumeTask(id, tasks[id]);
      if resumed.Returned? {
        FinishedTask(old(LogOf(id)), task, LogOf(id));
      }
      return if resumed.Threw? then Threw else Returned(Some(resumed.value));
    }

    /** Unless the checkpoint already has this profile, invalidates every target for it. */
    method EnsureCurrentProfilePropagated(id: SubjectId, digest: Digest, reason: Reason) returns (r: Result<Propagation>)
      requires Valid() && Follows(id) && Stored(id).task.None? && !reason.DeletionRequested?
      modifies this
      ensures Valid() && Follows(id) && Touched(id)
      ensures if r.Threw? then failures > old(failures) else failures == old(failures)
      ensures r.Returned? ==> Stored(id) == Durable(None, Some(digest))
      ensures r.Returned? ==>
        r.value == (if old(Stored(id)).checkpoint == Some(digest) then Propagation(false, digest, [], None)
                    else Propagation(true, digest, TARGETS, Some(reason)))
      ensures r.Returned? ==> AllInvalidated(LogOf(id), |old(LogOf(id))|, r.value.invalidated, digest)
    {
      var happened, ok := Await();
      if !ok {
        return Threw;
      }
      if id in checkpoints && checkpoints[id] == digest {
        return Returned(Propagation(false, digest, [], None));
      }
      var task := Task(reason, digest, TARGETS, DerivedInvalidationPending, None);
      ok := SaveTask(id, task);
      if !ok {
        return Threw;
      }
      ghost var mid := LogOf(id);
      var engineDeleted;
      r, engineDeleted := ResumeTask(id, task);
      if r.Returned? {
        FinishedTask(mid, task, LogOf(id));
        StillInvalidated(LogOf(id), LogOf(id), |mid|, |old(LogOf(id))|, TARGETS, digest);
      }
    }

    // -------------------------------------------------------------- operations

    /** Every derived target is current for the digest, and nothing is left to do. */
    ghost predicate Current(id: SubjectId, digest: Digest)
      reads `tasks, `checkpoints, `logs
    {
      Stored(id) == Durable(None, Some(digest)) && forall x :: LastInvalidation(LogOf(id), x) == Some(digest)
    }

    /** What an operation that returned reports: a change invalidates every target, for the reason given. */
    predicate Reports(p: Propagation, reason: Reason) {
      if p.changed then p.invalidated == TARGETS && p.reason == Some(reason) else p.invalidated == [] && p.reason.None?
    }

    /** What was invalidated while recovering and propagating is in the log at the end. */
    lemma AfterRecovery(before: Log, recovered: Option<Propagation>, log: Log, mid: Log, r: Result<Propagation>, after: Log)
      requires log <= mid <= after
      requires recovered.Some? ==> AllInvalidated(log, |before|, recovered.value.invalidated, recovered.value.digest)
      requires r.Returned? ==> AllInvalidated(after, |mid|, r.value.invalidated, r.value.digest)
      ensures recovered.Some? ==> AllInvalidated(after, |before|, recovered.value.invalidated, recovered.value.digest)
      ensures r.Returned? ==> AllInvalidated(after, |log|, r.value.invalidated, r.value.digest)
    {
      if recovered.Some? {
        StillInvalidated(log, after, |before|, |before|, recovered.value.invalidated, recovered.value.digest);
      }
      if r.Returned? {
        StillInvalidated(after, after, |mid|, |log|, r.value.invalidated, r.value.digest);
      }
    }

    /** Recovers first, then lets the engine process the events, and propagates the profile it answers with. */
    method Process(id: SubjectId, events: seq<SignalLedger.Event>) returns (r: Result<Propagation>, ghost at: nat)
      requires Valid()
      modifies this
      ensures Valid() && Touched(id)
      ensures if r.Threw? then failures > old(failures) else failures == old(failures)
      ensures r.Returned? ==> Current(id, r.value.digest)
      ensures r.Returned? ==>
        && at >= |old(LogOf(id))|
        && AnsweredAt(LogOf(id), at, EngineCall(Engine.Process(events, true, Engine.Acknowledged, true)), r.value.digest)
      ensures r.Returned? ==> Reports(r.value, if exists e :: e in events && e.Retract? then SignalRetracted else ProfileChanged)
      ensures r.Returned? ==> (r.value.changed <==> Settled(old(Stored(id))) != Some(r.value.digest))
      ensures r.Returned? ==> AllInvalidated(LogOf(id), at, r.value.invalidated, r.value.digest)
      ensures r.Returned? && old(id in tasks) ==>
        var p := Finished(old(tasks[id])); AllInvalidated(LogOf(id), |old(LogOf(id))|, p.invalidated, p.digest)
    {
      assert Follows(id);
      var recovered := RecoverPending(id);
      at := |LogOf(id)|;
      if recovered.Threw? {
        return Threw, at;
      }
      ghost var loads: bool, save: Engine.Write, applies: bool := *, *, *;
      var ok, digest := EngineWork(id, EngineCall(Engine.Process(events, true, Engine.Acknowledged, true)),
                                   EngineCall(Engine.Process(events, loads, save, applies)));
      if !ok {
        return Threw, at;
      }
      var retracts := exists e :: e in events && e.Retract?;
      ghost var mid := LogOf(id);
      r := EnsureCurrentProfilePropagated(id, digest, if retracts then SignalRetracted else ProfileChanged);
      DerivedStateFollowsTheProfile(LogOf(id));
      AfterRecovery(old(LogOf(id)), recovered.value, mid[..at], mid, r, LogOf(id));
    }

    method Synchronize(id: SubjectId) returns (r: Result<Propagation>, ghost at: nat)
      requires Valid()
      modifies this
      ensures Valid() && Touched(id)
      ensures if r.Threw? then failures > old(failures) else failures == old(failures)
      ensures r.Returned? ==> Current(id, r.value.digest)
      ensures r.Returned? ==>
        && at >= |old(LogOf(id))|
        && AnsweredAt(LogOf(id), at, EngineCall(Engine.Synchronize(true, true)), r.value.digest)
      ensures r.Returned? ==> Reports(r.value, SignalExpired)
      ensures r.Returned? ==> (r.value.changed <==> Settled(old(Stored(id))) != Some(r.value.digest))
      ensures r.Returned? ==> AllInvalidated(LogOf(id), at, r.value.invalidated, r.value.digest)
      ensures r.Returned? && old(id in tasks) ==>
        var p := Finished(old(tasks[id])); AllInvalidated(LogOf(id), |old(LogOf(id))|, p.invalidated, p.digest)
    {
      assert Follows(id);
      var recovered := RecoverPending(id);
      at := |LogOf(id)|;
      if recovered.Threw? {
        return Threw, at;
      }
      ghost var loads: bool, applies: bool := *, *;
      var ok, digest := EngineWork(id, EngineCall(Engine.Synchronize(true, true)), EngineCall(Engine.Synchronize(loads, applies)));
      if !ok {
        return Threw, at;
      }
      ghost var mid := LogOf(id);
      r := EnsureCurrentProfilePropagated(id, digest, SignalExpired);
      DerivedStateFollowsTheProfile(LogOf(id));
      AfterRecovery(old(LogOf(id)), recovered.value, mid[..at], mid, r, LogOf(id));
    }

    /** Recovers if there is something to recover; otherwise compares the profile with the checkpoint. */
    method Repair(id: SubjectId) returns (r: Result<Propagation>, ghost at: nat)
      requires Valid()
      modifies this
      ensures Valid() && Touched(id)
      ensures if r.Threw? then failures > old(failures) else failures == old(failures)
      ensures r.Returned? ==> Stored(id).task.None?
      ensures r.Returned? && !(old(id in tasks) && Deletion(old(tasks[id]))) ==> Current(id, r.value.digest)
      ensures r.Returned? && old(id in tasks) ==>
        var t := old(tasks[id]);
        && r.value == Propagation(true, t.digest, if t.phase.EngineDeletionPending? then TARGETS else t.pending, Some(t.reason))
        && AllInvalidated(LogOf(id), |old(LogOf(id))|, r.value.invalidated, t.digest)
      ensures r.Returned? && old(id !in tasks) ==>
        && at >= |old(LogOf(id))|
        && AnsweredAt(LogOf(id), at, ReadProfile, r.value.digest) && Reports(r.value, ProfileChanged)
        && (r.value.changed <==> old(Stored(id)).checkpoint != Some(r.value.digest))
        && AllInvalidated(LogOf(id), at, r.value.invalidated, r.value.digest)
    {
      assert Follows(id);
      var recovered := RecoverPending(id);
      at := |LogOf(id)|;
      if recovered.Threw? {
        return Threw, at;
      }
      if recovered.value.Some? {
        DerivedStateFollowsTheProfile(LogOf(id));
        return Returned(recovered.value.value), at;
      }
      var ok, digest := EngineWork(id, ReadProfile, ReadProfile);
      if !ok {
        return Threw, at;
      }
      ghost var mid := LogOf(id);
      r := EnsureCurrentProfilePropagated(id, digest, ProfileChanged);
      DerivedStateFollowsTheProfile(LogOf(id));
      AfterRecovery(old(LogOf(id)), None, mid[..at], mid, r, LogOf(id));
    }

    /** The engine was asked to delete as of this time, reported that it did, and then every target was invalidated. */
    ghost predicate DeletedAt(log: Log, k: nat, at: Engine.Timestamp, digest: Digest) {
      && k < |log| && log[k] == EngineCall(Engine.Delete(at, Engine.Acknowledged, true))
      && AllInvalidated(log, k + 1, TARGETS, digest)
    }

    /** Stores a deletion's intent and carries it out. */
    method StartDeletion(id: SubjectId, task: Task) returns (r: Result<Propagation>)
      requires Valid() && Follows(id) && Stored(id).task.None? && Deletion(task) && FreshTask(task)
      modifies this
      ensures Valid() && Touched(id)
      ensures if r.Threw? then failures > old(failures) else failures == old(failures)
      ensures r.Returned? ==> Stored(id) == Durable(None, None) && r.value == Propagation(true, task.digest, TARGETS, Some(task.reason))
      ensures r.Returned? ==> |old(LogOf(id))| < |LogOf(id)| && LogOf(id)[|old(LogOf(id))|] == StoreTask(task)
      ensures r.Returned? ==> DeletionDone(LogOf(id), |old(LogOf(id))|)
      ensures r.Returned? ==> DeletedAt(LogOf(id), |old(LogOf(id))| + 1, task.intent.value, task.digest)
    {
      ghost var i := |LogOf(id)|;
      var ok := SaveTask(id, task);
      if !ok {
        return Threw;
      }
      assert LogOf(id)[i] == StoreTask(task);
      ghost var mid := LogOf(id);
      var engineDeleted;
      r, engineDeleted := ResumeTask(id, task);
      if r.Returned? {
        DeletionOpenOrDone(LogOf(id), i);
        FinishedTask(mid, task, LogOf(id));
      }
    }

    /** Stores the intent first, then deletes in the engine, then invalidates every target. */
    method DeleteSubject(id: SubjectId, requestedAt: Engine.Timestamp) returns (r: Result<Propagation>, ghost at: nat)
      requires Valid()
      modifies this
      ensures Valid() && Touched(id)
      ensures if r.Threw? then failures > old(failures) else failures == old(failures)
      ensures r.Returned? ==> Stored(id) == Durable(None, None)
      ensures r.Returned? ==> r.value == Propagation(true, r.value.digest, TARGETS, Some(DeletionRequested))
      ensures r.Returned? ==>
        && at >= |old(LogOf(id))| && at + 2 < |LogOf(id)|
        && AnsweredAt(LogOf(id), at, ReadProfile, r.value.digest)
        && LogOf(id)[at + 2] == StoreTask(Task(DeletionRequested, r.value.digest, [], EngineDeletionPending, Some(requestedAt)))
        && DeletionDone(LogOf(id), at + 2)
        && DeletedAt(LogOf(id), at + 3, requestedAt, r.value.digest)
    {
      assert Follows(id);
      var recovered := RecoverPending(id);
      at := |LogOf(id)|;
      if recovered.Threw? {
        return Threw, at;
      }
      var ok, digest := EngineWork(id, ReadProfile, ReadProfile);
      if !ok {
        return Threw, at;
      }
      r := StartDeletion(id, Task(DeletionRequested, digest, [], EngineDeletionPending, Some(requestedAt)));
    }
  }

  /** Dropping the next target from the ones left leaves the ones after it. */
  lemma DropAt(targets: seq<Target>, i: nat)
    requires NoRepeats(targets) && i < |targets|
    ensures targets[i] in targets[i..] && Without(targets[i..], targets[i]) == targets[i + 1..]
    ensures targets[..i + 1] == targets[..i] + [targets[i]]
  {
    assert targets[i..] == [targets[i]] + targets[i + 1..];
    DropHead(targets[i], targets[i + 1..]);
  }

  lemma {:induction false} DropHead(x: Target, rest: seq<Target>)
    requires x !in rest
    ensures Without([x] + rest, x) == rest
  {
    if rest == [] {
      assert [x] + rest == [x];
    } else {
      var n := |rest| - 1;
      DropHead(x, rest[..n]);
      assert ([x] + rest)[..n + 1] == [x] + rest[..n];
    }
  }
}
