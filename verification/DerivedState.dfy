// The invalidation and deletion protocol for one subject, as the order in which durable effects may happen:
// src/recommendation/derived-state-invalidation-orchestrator.ts.
module DerivedState {
  import opened Options
  import Engine

  type Digest = string

  datatype Target = Embeddings | CandidateCache | ExplanationCache
  datatype Reason = ProfileChanged | SignalRetracted | SignalExpired | DeletionRequested
  datatype Phase = EngineDeletionPending | DerivedInvalidationPending

  const TARGETS := [Embeddings, CandidateCache, ExplanationCache]

  datatype Task = Task(
    reason: Reason, digest: Digest, pending: seq<Target>, phase: Phase, intent: Option<Engine.Timestamp>)

  /** What survives a crash: the stored task and the checkpoint. */
  datatype Durable = Durable(task: Option<Task>, checkpoint: Option<Digest>)

  /** An effect that happened, whether or not the caller learned of it. */
  datatype Action =
    | StoreTask(task: Task)
    | ClearTask
    | SaveCheckpoint(digest: Digest)
    | DropCheckpoint
    | Invalidate(target: Target, digest: Digest)
    | ReadProfile
    | EngineCall(call: Engine.Call)
    | Answered(digest: Digest)

  type Log = seq<Action>

  function Effect(d: Durable, a: Action): Durable {
    match a
    case StoreTask(t) => d.(task := Some(t))
    case ClearTask => d.(task := None)
    case SaveCheckpoint(digest) => d.(checkpoint := Some(digest))
    case DropCheckpoint => d.(checkpoint := None)
    case _ => d
  }

  /** The engine was asked at k, and answered with a profile of this digest. */
  predicate AnsweredAt(log: Log, k: nat, asked: Action, digest: Digest) {
    k + 1 < |log| && log[k] == asked && log[k + 1] == Answered(digest)
  }

  function After(log: Log): Durable {
    if log == [] then Durable(None, None) else Effect(After(log[..|log| - 1]), log[|log| - 1])
  }

  // ---------------------------------------------------------------- the protocol

  predicate NoRepeats(pending: seq<Target>) {
    forall i, j :: 0 <= i < j < |pending| ==> pending[i] != pending[j]
  }

  function Without(pending: seq<Target>, x: Target): (rest: seq<Target>) {
    if pending == [] then []
    else
      var last := pending[|pending| - 1];
      Without(pending[..|pending| - 1], x) + (if last == x then [] else [last])
  }

  predicate Deletion(t: Task) {
    t.reason.DeletionRequested?
  }

  /** The engine reported that the subject is deleted. */
  predicate EngineDeleted(a: Action) {
    a.EngineCall? && a.call.Delete? && a.call.save.Acknowledged? && a.call.applies
  }

  /** A task that may be stored when none is. */
  predicate FreshTask(t: Task) {
    if Deletion(t) then t.phase.EngineDeletionPending? && t.pending == [] && t.intent.Some?
    else t.phase.DerivedInvalidationPending? && t.pending == TARGETS && t.intent.None?
  }

  /** t follows the stored task once `last` has happened. */
  predicate Successor(stored: Task, last: Action, t: Task) {
    if stored.phase.EngineDeletionPending? then
      EngineDeleted(last) && t == stored.(phase := DerivedInvalidationPending, pending := TARGETS)
    else
      && last.Invalidate? && last.digest == stored.digest && last.target in stored.pending
      && t == stored.(pending := Without(stored.pending, last.target))
  }

  predicate Drained(d: Durable) {
    d.task.Some? && d.task.value.phase.DerivedInvalidationPending? && d.task.value.pending == []
  }

  predicate Allowed(log: Log, a: Action) {
    var d := After(log);
    match a
    case StoreTask(t) => if d.task.None? then FreshTask(t) else log != [] && Successor(d.task.value, log[|log| - 1], t)
    case Invalidate(x, digest) =>
      && d.task.Some? && d.task.value.phase.DerivedInvalidationPending?
      && x in d.task.value.pending && digest == d.task.value.digest
    case SaveCheckpoint(digest) => Drained(d) && !Deletion(d.task.value) && digest == d.task.value.digest
    case DropCheckpoint => Drained(d) && Deletion(d.task.value)
    case ClearTask => Drained(d) && d.checkpoint == if Deletion(d.task.value) then None else Some(d.task.value.digest)
    case ReadProfile => d.task.None?
    case Answered(_) => d.task.None?
    case EngineCall(call) =>
      match call
      case Delete(_, _, _) => d.task.Some? && d.task.value.phase.EngineDeletionPending?
      case Restart => true
      case _ => d.task.None?
  }

  predicate Legal(log: Log) {
    log == [] || (Legal(log[..|log| - 1]) && Allowed(log[..|log| - 1], log[|log| - 1]))
  }

  lemma LegalExtends(log: Log, a: Action)
    requires Legal(log) && Allowed(log, a)
    ensures Legal(log + [a]) && After(log + [a]) == Effect(After(log), a)
  {
    assert (log + [a])[..|log|] == log;
  }

  lemma {:induction false} LegalPrefix(log: Log, n: nat)
    requires Legal(log) && n <= |log|
    ensures Legal(log[..n])
    ensures n < |log| ==> Allowed(log[..n], log[n])
  {
    if n < |log| - 1 {
      LegalPrefix(log[..|log| - 1], n);
      assert log[..|log| - 1][..n] == log[..n] && log[..|log| - 1][n] == log[n];
    } else if n == |log| {
      assert log[..n] == log;
    }
  }

  // ---------------------------------------------------------------- what each target was last invalidated with

  function LastInvalidation(log: Log, x: Target): Option<Digest> {
    if log == [] then None
    else
      var a := log[|log| - 1];
      if a.Invalidate? && a.target == x then Some(a.digest) else LastInvalidation(log[..|log| - 1], x)
  }

  lemma {:induction false} WithoutMembers(pending: seq<Target>, x: Target)
    ensures forall y :: y in Without(pending, x) <==> y in pending && y != x
    ensures |Without(pending, x)| <= |pending|
    ensures x in pending ==> |Without(pending, x)| < |pending|
  {
    if pending != [] {
      WithoutMembers(pending[..|pending| - 1], x);
      assert pending == pending[..|pending| - 1] + [pending[|pending| - 1]];
    }
  }

  /** While a task is being drained, every target it no longer lists was last invalidated with its digest. */
  ghost predicate DrainInvariant(log: Log) {
    var d := After(log);
    d.task.Some? && d.task.value.phase.DerivedInvalidationPending? ==>
      forall x :: x !in d.task.value.pending ==> LastInvalidation(log, x) == Some(d.task.value.digest)
  }

  /** With no task stored, a checkpoint is the digest each target was last invalidated with. */
  ghost predicate CheckpointInvariant(log: Log) {
    var d := After(log);
    d.task.None? && d.checkpoint.Some? ==> forall x :: LastInvalidation(log, x) == d.checkpoint
  }

  lemma EveryTarget(x: Target)
    ensures x in TARGETS
  {
    assert TARGETS[0] == Embeddings && TARGETS[1] == CandidateCache && TARGETS[2] == ExplanationCache;
  }

  lemma {:induction false} DerivedStateFollowsTheProfile(log: Log)
    requires Legal(log)
    ensures DrainInvariant(log) && CheckpointInvariant(log)
  {
    if log != [] {
      var before, a := log[..|log| - 1], log[|log| - 1];
      DerivedStateFollowsTheProfile(before);
      forall x
        ensures x in TARGETS
      {
        EveryTarget(x);
      }
      if a.StoreTask? && After(before).task.Some? && before != [] && before[|before| - 1].Invalidate? {
        WithoutMembers(After(before).task.value.pending, before[|before| - 1].target);
      }
    }
  }

  lemma {:induction false} WithoutKeepsOrder(pending: seq<Target>, x: Target)
    requires NoRepeats(pending)
    ensures NoRepeats(Without(pending, x))
  {
    if pending != [] {
      var n := |pending| - 1;
      var rest := Without(pending[..n], x);
      WithoutKeepsOrder(pending[..n], x);
      WithoutMembers(pending[..n], x);
      forall i | 0 <= i < |rest|
        ensures rest[i] != pending[n]
      {
        assert rest[i] in pending[..n];
        var j :| 0 <= j < n && pending[..n][j] == rest[i];
        assert pending[j] != pending[n];
      }
    }
  }

  /** A stored task lists no target twice, and waits for the engine only if it is a deletion with its intent. */
  lemma {:induction false} StoredTaskIsWellFormed(log: Log)
    requires Legal(log) && After(log).task.Some?
    ensures var t := After(log).task.value;
      NoRepeats(t.pending) && (t.phase.EngineDeletionPending? ==> Deletion(t) && t.intent.Some?)
  {
    var before, a := log[..|log| - 1], log[|log| - 1];
    if After(before).task.Some? {
      StoredTaskIsWellFormed(before);
      if a.StoreTask? && After(before).task.value.phase.DerivedInvalidationPending? {
        WithoutKeepsOrder(After(before).task.value.pending, before[|before| - 1].target);
      }
    }
  }

  // ---------------------------------------------------------------- tasks only move forward

  /** Engine deletion first, then one step for each pending target. */
  function Rank(t: Task): nat {
    if t.phase.EngineDeletionPending? then |TARGETS| + 1 else |t.pending|
  }

  /** A stored task is only ever overwritten by its own next step, which is strictly nearer to being done. */
  lemma StoredTasksAdvance(log: Log, t: Task)
    requires Legal(log + [StoreTask(t)]) && After(log).task.Some?
    ensures var stored := After(log).task.value;
      Rank(t) < Rank(stored) && t.reason == stored.reason && t.digest == stored.digest && t.intent == stored.intent
  {
    assert (log + [StoreTask(t)])[..|log|] == log;
    var stored := After(log).task.value;
    if stored.phase.DerivedInvalidationPending? {
      WithoutMembers(stored.pending, log[|log| - 1].target);
    }
  }

  // ---------------------------------------------------------------- deletions finish before anything else starts

  predicate Work(a: Action) {
    a.ReadProfile? || (a.EngineCall? && Engine.LedgerWork(a.call))
  }

  /** From position k on, x has been invalidated. */
  ghost predicate InvalidatedFrom(log: Log, k: nat, x: Target) {
    exists m :: k <= m < |log| && log[m].Invalidate? && log[m].target == x
  }

  /** After position i the engine deleted the subject, and after that every target was invalidated. */
  ghost predicate DeletionDone(log: Log, i: nat) {
    exists k :: i < k < |log| && EngineDeleted(log[k]) && forall x :: InvalidatedFrom(log, k, x)
  }

  /** The deletion stored at i is still stored, as far along as its pending list says. */
  ghost predicate DeletionOpen(log: Log, i: nat) {
    var d := After(log);
    && d.task.Some? && Deletion(d.task.value)
    && (d.task.value.phase.EngineDeletionPending?
        || exists k :: i < k < |log| && EngineDeleted(log[k])
             && forall x :: x in d.task.value.pending || InvalidatedFrom(log, k, x))
  }

  lemma InvalidatedStays(log: Log, a: Action, k: nat)
    ensures forall x :: InvalidatedFrom(log, k, x) ==> InvalidatedFrom(log + [a], k, x)
    ensures a.Invalidate? && k <= |log| ==> InvalidatedFrom(log + [a], k, a.target)
  {
    forall x | InvalidatedFrom(log, k, x)
      ensures InvalidatedFrom(log + [a], k, x)
    {
      var m :| k <= m < |log| && log[m].Invalidate? && log[m].target == x;
      assert (log + [a])[m] == log[m];
    }
    assert (log + [a])[|log|] == a;
  }

  lemma DoneStays(log: Log, a: Action, i: nat)
    requires DeletionDone(log, i)
    ensures DeletionDone(log + [a], i)
  {
    var k :| i < k < |log| && EngineDeleted(log[k]) && forall x :: InvalidatedFrom(log, k, x);
    InvalidatedStays(log, a, k);
    assert (log + [a])[k] == log[k];
  }

  lemma OpenStays(log: Log, a: Action, i: nat, k: nat)
    requires After(log + [a]).task == After(log).task && After(log).task.Some? && Deletion(After(log).task.value)
    requires i < k < |log| && EngineDeleted(log[k])
    requires forall x :: x in After(log).task.value.pending || InvalidatedFrom(log, k, x)
    ensures DeletionOpen(log + [a], i)
  {
    InvalidatedStays(log, a, k);
    assert (log + [a])[k] == log[k];
  }

  lemma OpenDeletionAdvances(log: Log, a: Action, i: nat)
    requires Legal(log) && Allowed(log, a) && DeletionOpen(log, i) && i < |log| && log[i].StoreTask?
    ensures DeletionOpen(log + [a], i) || DeletionDone(log + [a], i)
  {
    LegalExtends(log, a);
    var stored := After(log).task.value;
    var next := log + [a];
    var last := |log| - 1;
    assert next[last] == log[last];
    if stored.phase.EngineDeletionPending? {
      forall x
        ensures x in TARGETS
      {
        EveryTarget(x);
      }
    } else {
      var k :| i < k < |log| && EngineDeleted(log[k]) && forall x :: x in stored.pending || InvalidatedFrom(log, k, x);
      InvalidatedStays(log, a, k);
      assert next[k] == log[k];
      if a.StoreTask? {
        var y := log[last].target;
        WithoutMembers(stored.pending, y);
        assert InvalidatedFrom(next, k, y);
      } else if a.ClearTask? {
        assert DeletionDone(next, i);
      } else {
        OpenStays(log, a, i, k);
      }
    }
  }

  /** A stored deletion stays open until it is done, over any failures and retries. */
  lemma {:induction false} DeletionOpenOrDone(log: Log, i: nat)
    requires Legal(log) && i < |log| && log[i].StoreTask? && Deletion(log[i].task) && log[i].task.phase.EngineDeletionPending?
    ensures DeletionOpen(log, i) || DeletionDone(log, i)
  {
    if i < |log| - 1 {
      var before, a := log[..|log| - 1], log[|log| - 1];
      assert log == before + [a];
      DeletionOpenOrDone(before, i);
      if DeletionDone(before, i) {
        DoneStays(before, a, i);
      } else {
        OpenDeletionAdvances(before, a, i);
      }
    }
  }

  /** No engine work starts after a stored deletion before the engine has deleted and all targets were invalidated after that. */
  lemma NothingStartsBeforeDeletionIsDone(log: Log, i: nat, j: nat)
    requires Legal(log) && i < j < |log| && Work(log[j])
    requires log[i].StoreTask? && Deletion(log[i].task) && log[i].task.phase.EngineDeletionPending?
    ensures DeletionDone(log[..j], i)
  {
    LegalPrefix(log, j);
    DeletionOpenOrDone(log[..j], i);
  }

  // ---------------------------------------------------------------- the effects of a task that is finished

  /** The first i pending targets are invalidated one by one, and the shorter task stored after each. */
  function DrainSteps(t: Task, i: nat): Log
    requires i <= |t.pending|
  {
    if i == 0 then []
    else DrainSteps(t, i - 1) + [Invalidate(t.pending[i - 1], t.digest), StoreTask(t.(pending := t.pending[i..]))]
  }

  function SettleSteps(t: Task): Log {
    [if Deletion(t) then DropCheckpoint else SaveCheckpoint(t.digest), ClearTask]
  }

  /** From a task whose targets are pending until it is forgotten. */
  function DerivedSteps(t: Task): Log {
    DrainSteps(t, |t.pending|) + SettleSteps(t)
  }

  /** What the engine's deletion leaves to do. */
  function Deleted(t: Task): Task {
    t.(phase := DerivedInvalidationPending, pending := TARGETS)
  }

  /** From a stored task until it is forgotten: the engine's deletion comes first if it is due. */
  function FinishSteps(t: Task): Log {
    if t.phase.EngineDeletionPending? && t.intent.Some? then
      [EngineCall(Engine.Delete(t.intent.value, Engine.Acknowledged, true)), StoreTask(Deleted(t))] + DerivedSteps(Deleted(t))
    else DerivedSteps(t)
  }

  /** From position k on, x has been invalidated with this digest. */
  ghost predicate InvalidatedWith(log: Log, k: nat, x: Target, digest: Digest) {
    exists m :: k <= m < |log| && log[m] == Invalidate(x, digest)
  }

  lemma {:induction false} DrainInvalidates(t: Task, i: nat, k: nat)
    requires k < i <= |t.pending|
    ensures Invalidate(t.pending[k], t.digest) in DrainSteps(t, i)
  {
    if k < i - 1 {
      DrainInvalidates(t, i - 1, k);
    }
  }

  lemma DerivedInvalidates(t: Task, x: Target)
    requires x in t.pending
    ensures Invalidate(x, t.digest) in DerivedSteps(t)
  {
    var k :| 0 <= k < |t.pending| && t.pending[k] == x;
    DrainInvalidates(t, |t.pending|, k);
  }

  /** The log grew by these effects. */
  ghost predicate Grew(before: Log, steps: Log, after: Log) {
    after == before + steps
  }

  lemma GrewOn(a: Log, first: Log, b: Log, rest: Log, c: Log)
    requires Grew(a, first, b) && Grew(b, rest, c)
    ensures Grew(a, first + rest, c) && |b| == |a| + |first| && b <= c
  {
  }

  /** From position k on, each of these targets has been invalidated with this digest. */
  ghost predicate AllInvalidated(log: Log, k: nat, xs: seq<Target>, digest: Digest) {
    forall x :: x in xs ==> InvalidatedWith(log, k, x, digest)
  }

  lemma DrainedTask(before: Log, t: Task, after: Log)
    requires Grew(before, DerivedSteps(t), after)
    ensures AllInvalidated(after, |before|, t.pending, t.digest)
  {
    var steps := DerivedSteps(t);
    forall x | x in t.pending
      ensures InvalidatedWith(after, |before|, x, t.digest)
    {
      DerivedInvalidates(t, x);
      var m :| 0 <= m < |steps| && steps[m] == Invalidate(x, t.digest);
      assert after[|before| + m] == steps[m];
    }
  }

  /**
   * Finishing a task invalidates each of its targets with its digest. If the engine's deletion was still due, that comes
   * first, with the time that was asked for, and every target after it.
   */
  lemma FinishedTask(before: Log, t: Task, after: Log)
    requires Grew(before, FinishSteps(t), after) && (t.phase.EngineDeletionPending? ==> t.intent.Some?)
    ensures AllInvalidated(after, |before|, if t.phase.EngineDeletionPending? then TARGETS else t.pending, t.digest)
    ensures t.phase.EngineDeletionPending? ==>
      && |after| > |before| && after[|before|] == EngineCall(Engine.Delete(t.intent.value, Engine.Acknowledged, true))
      && AllInvalidated(after, |before| + 1, TARGETS, t.digest)
  {
    if t.phase.EngineDeletionPending? {
      var mid := before + FinishSteps(t)[..2];
      assert Grew(mid, DerivedSteps(Deleted(t)), after);
      DrainedTask(mid, Deleted(t), after);
      StillInvalidated(after, after, |mid|, |before| + 1, TARGETS, t.digest);
      StillInvalidated(after, after, |mid|, |before|, TARGETS, t.digest);
    } else {
      DrainedTask(before, t, after);
    }
  }

  lemma StillInvalidated(log: Log, longer: Log, k: nat, j: nat, xs: seq<Target>, digest: Digest)
    requires log <= longer && j <= k && AllInvalidated(log, k, xs, digest)
    ensures AllInvalidated(longer, j, xs, digest)
  {
    forall x | x in xs
      ensures InvalidatedWith(longer, j, x, digest)
    {
      assert InvalidatedWith(log, k, x, digest);
      var m :| k <= m < |log| && log[m] == Invalidate(x, digest);
      assert longer[m] == log[m];
    }
  }

  // ---------------------------------------------------------------- over the engine

  /** The calls the engine sees. */
  function EngineCalls(log: Log): seq<Engine.Call> {
    if log == [] then []
    else
      var a := log[|log| - 1];
      EngineCalls(log[..|log| - 1]) + (if a.EngineCall? then [a.call] else [])
  }

  lemma {:induction false} UnfinishedOnlyWhilePending(log: Log)
    requires Legal(log) && Engine.Unfinished(EngineCalls(log))
    ensures After(log).task.Some? && After(log).task.value.phase.EngineDeletionPending?
    ensures !EngineDeleted(log[|log| - 1])
    decreases |log|
  {
    var before, a := log[..|log| - 1], log[|log| - 1];
    var calls := EngineCalls(before);
    if a.EngineCall? {
      assert (calls + [a.call])[..|calls|] == calls;
      if !a.call.Delete? {
        UnfinishedOnlyWhilePending(before);
      }
    } else {
      assert calls + [] == calls;
      UnfinishedOnlyWhilePending(before);
    }
  }

  /** The protocol never starts ledger work while a deletion is unfinished. */
  lemma {:induction false} ProtocolFinishesDeletions(log: Log)
    requires Legal(log)
    ensures Engine.FinishesDeletions(EngineCalls(log))
  {
    if log != [] {
      var before, a := log[..|log| - 1], log[|log| - 1];
      ProtocolFinishesDeletions(before);
      var calls, all := EngineCalls(before), EngineCalls(log);
      forall i | 0 <= i < |all|
        ensures Engine.StartsFinished(all, i)
      {
        if i < |calls| {
          assert all[i] == calls[i] && all[..i] == calls[..i];
          assert Engine.StartsFinished(calls, i);
        } else {
          assert all[..i] == calls;
          if Engine.Unfinished(calls) {
            UnfinishedOnlyWhilePending(before);
          }
        }
      }
    }
  }

  /**
   * So over this protocol a barrier, once stored, refuses all later ledger work of the subject for ever,
   * although the engine by itself loses it when an acknowledgement is lost.
   */
  lemma ProtocolKeepsTheBarrier(c: Engine.Config, s: Engine.State, log: Log, i: nat, j: nat)
    requires Legal(log) && Engine.InStep(s)
    requires i <= j < |EngineCalls(log)| && Engine.LedgerWork(EngineCalls(log)[j])
    requires Engine.Barred(Engine.Run(c, s, EngineCalls(log)[..i]))
    ensures Engine.Step(c, Engine.Run(c, s, EngineCalls(log)[..j]), EngineCalls(log)[j]).1 != Engine.Done
  {
    ProtocolFinishesDeletions(log);
    Engine.FinishingCallersKeepTheBarrier(c, s, EngineCalls(log), i, j);
  }
}
