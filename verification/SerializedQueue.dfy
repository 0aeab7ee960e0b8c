// The promise-chain lock `runSerialized`: src/recommendation/engine-orchestrator.ts and
// src/recommendation/derived-state-invalidation-orchestrator.ts.
module SerializedQueue {
  import opened Options

  type Id = string

  datatype Status = Waiting | Running | Finished(threw: bool)

  /** One call: its id, the call whose tail it awaits, and how far it has come. Calls are numbered in call order. */
  datatype Call = Call(id: Id, prior: Option<nat>, status: Status)

  /** `tails` holds the number of the call whose tail promise is stored for the id. */
  datatype State = State(calls: seq<Call>, tails: map<Id, nat>)

  const INITIAL := State([], map[])

  datatype Step = Enter(id: Id) | Start(c: nat) | Finish(c: nat, threw: bool)

  /** The tail of c resolves once what it waited for has resolved and its own gate is released. */
  predicate TailResolved(calls: seq<Call>, c: nat)
    requires c < |calls|
    decreases c
  {
    && calls[c].status.Finished?
    && match calls[c].prior
       case None => true
       case Some(p) => p < c && TailResolved(calls, p)
  }

  predicate Enabled(s: State, step: Step) {
    match step
    case Enter(_) => true
    case Start(c) => c < |s.calls| && s.calls[c].status.Waiting?
      && (match s.calls[c].prior
          case None => true
          case Some(p) => p < |s.calls| && TailResolved(s.calls, p))
    case Finish(c, _) => c < |s.calls| && s.calls[c].status.Running?
  }

  function Next(s: State, step: Step): State
    requires Enabled(s, step)
  {
    match step
    case Enter(id) =>
      var prior := if id in s.tails then Some(s.tails[id]) else None;
      State(s.calls + [Call(id, prior, Waiting)], s.tails[id := |s.calls|])
    case Start(c) => s.(calls := s.calls[c := s.calls[c].(status := Running)])
    case Finish(c, threw) =>
      var id := s.calls[c].id;
      State(s.calls[c := s.calls[c].(status := Finished(threw))],
            if id in s.tails && s.tails[id] == c then s.tails - {id} else s.tails)
  }

  /** s is reached from the start by the steps, each taken when it was possible. */
  ghost predicate Reaches(steps: seq<Step>, s: State) {
    if steps == [] then s == INITIAL
    else
      var n := |steps| - 1;
      exists before :: Reaches(steps[..n], before) && Enabled(before, steps[n]) && s == Next(before, steps[n])
  }

  // ---------------------------------------------------------------- the invariant

  predicate Unfinished(s: State, c: nat) {
    c < |s.calls| && !s.calls[c].status.Finished?
  }

  /** An awaited call is the latest earlier call for the same id; with none to await, all earlier ones are finished. */
  ghost predicate PriorRight(s: State, c: nat)
    requires c < |s.calls|
  {
    var call := s.calls[c];
    match call.prior
    case None => forall a :: 0 <= a < c && s.calls[a].id == call.id ==> s.calls[a].status.Finished?
    case Some(p) => p < c && s.calls[p].id == call.id && forall a :: p < a < c ==> s.calls[a].id != call.id
  }

  /** Once a call has started, all earlier calls for its id are finished. */
  ghost predicate InOrder(s: State) {
    forall a, c :: 0 <= a < c < |s.calls| && s.calls[a].id == s.calls[c].id && !s.calls[c].status.Waiting? ==>
      s.calls[a].status.Finished?
  }

  /** The stored tail belongs to the latest call for its id, which is unfinished; an id without one has only finished calls. */
  ghost predicate TailsRight(s: State) {
    && (forall id :: id in s.tails ==>
          Unfinished(s, s.tails[id]) && s.calls[s.tails[id]].id == id
          && forall a :: s.tails[id] < a < |s.calls| ==> s.calls[a].id != id)
    && (forall c :: 0 <= c < |s.calls| && !s.calls[c].status.Finished? ==> s.calls[c].id in s.tails)
  }

  ghost predicate Inv(s: State) {
    (forall c :: 0 <= c < |s.calls| ==> PriorRight(s, c)) && InOrder(s) && TailsRight(s)
  }

  /** All earlier calls for c's id are finished once what c awaits has resolved. */
  lemma {:induction false} ResolvedMeansAllFinished(s: State, p: nat, a: nat)
    requires Inv(s) && p < |s.calls| && TailResolved(s.calls, p) && a <= p && s.calls[a].id == s.calls[p].id
    ensures s.calls[a].status.Finished?
  {
    assert PriorRight(s, p);
  }

  lemma StartKeepsInv(s: State, c: nat)
    requires Inv(s) && Enabled(s, Start(c))
    ensures Inv(Next(s, Start(c)))
  {
    var t := Next(s, Start(c));
    forall a | 0 <= a < c && s.calls[a].id == s.calls[c].id
      ensures s.calls[a].status.Finished?
    {
      assert PriorRight(s, c);
      if s.calls[c].prior.Some? {
        ResolvedMeansAllFinished(s, s.calls[c].prior.value, a);
      }
    }
    forall d | 0 <= d < |t.calls|
      ensures PriorRight(t, d)
    {
      assert PriorRight(s, d);
    }
  }

  lemma EnterKeepsInv(s: State, id: Id)
    requires Inv(s)
    ensures Inv(Next(s, Enter(id)))
  {
    var t := Next(s, Enter(id));
    forall d | 0 <= d < |t.calls|
      ensures PriorRight(t, d)
    {
      if d < |s.calls| {
        assert PriorRight(s, d);
      }
    }
  }

  lemma FinishKeepsInv(s: State, c: nat, threw: bool)
    requires Inv(s) && Enabled(s, Finish(c, threw))
    ensures Inv(Next(s, Finish(c, threw)))
  {
    var t := Next(s, Finish(c, threw));
    forall d | 0 <= d < |t.calls|
      ensures PriorRight(t, d)
    {
      assert PriorRight(s, d);
    }
    forall d | 0 <= d < |t.calls| && !t.calls[d].status.Finished?
      ensures t.calls[d].id in t.tails
    {
      assert s.calls[d].id in s.tails;
      if s.calls[d].id == s.calls[c].id {
        assert d > c;
      }
    }
  }

  lemma {:induction false} InvAlways(steps: seq<Step>, s: State)
    requires Reaches(steps, s)
    ensures Inv(s)
  {
    if steps != [] {
      var n := |steps| - 1;
      var before :| Reaches(steps[..n], before) && Enabled(before, steps[n]) && s == Next(before, steps[n]);
      InvAlways(steps[..n], before);
      match steps[n]
      case Enter(id) => EnterKeepsInv(before, id);
      case Start(c) => StartKeepsInv(before, c);
      case Finish(c, threw) => FinishKeepsInv(before, c, threw);
    }
  }

  // ---------------------------------------------------------------- what the lock promises

  /** At most one work item for an id runs at a time. */
  lemma MutualExclusion(steps: seq<Step>, s: State, a: nat, c: nat)
    requires Reaches(steps, s) && a < |s.calls| && c < |s.calls|
    requires s.calls[a].status.Running? && s.calls[c].status.Running? && s.calls[a].id == s.calls[c].id
    ensures a == c
  {
    InvAlways(steps, s);
  }

  /** A call that starts finds every earlier call for its id finished and every later one still waiting: items run in call order. */
  lemma StartsInCallOrder(steps: seq<Step>, s: State, c: nat, a: nat)
    requires Reaches(steps, s) && Enabled(s, Start(c)) && a < |s.calls| && a != c && s.calls[a].id == s.calls[c].id
    ensures if a < c then s.calls[a].status.Finished? else s.calls[a].status.Waiting?
  {
    InvAlways(steps, s);
    StartKeepsInv(s, c);
    var t := Next(s, Start(c));
    assert t.calls[a] == s.calls[a] && t.calls[c].status.Running?;
  }

  /** A tail is stored for an id exactly while some call for it is unfinished. */
  lemma TailsTrackUnfinished(steps: seq<Step>, s: State, id: Id)
    requires Reaches(steps, s)
    ensures id in s.tails <==> exists c: nat :: Unfinished(s, c) && s.calls[c].id == id
  {
    InvAlways(steps, s);
  }

  /** The first unfinished call for an id is either running or free to start, whatever its predecessors threw. */
  lemma NothingBlocks(steps: seq<Step>, s: State, c: nat)
    requires Reaches(steps, s) && Unfinished(s, c)
    requires forall a :: 0 <= a < c && s.calls[a].id == s.calls[c].id ==> s.calls[a].status.Finished?
    ensures s.calls[c].status.Running? || Enabled(s, Start(c))
  {
    InvAlways(steps, s);
    assert PriorRight(s, c);
    if s.calls[c].prior.Some? {
      FinishedTailsResolve(s, s.calls[c].prior.value);
    }
  }

  lemma {:induction false} FinishedTailsResolve(s: State, p: nat)
    requires Inv(s) && p < |s.calls|
    requires forall a :: 0 <= a <= p && s.calls[a].id == s.calls[p].id ==> s.calls[a].status.Finished?
    ensures TailResolved(s.calls, p)
    decreases p
  {
    assert PriorRight(s, p);
    if s.calls[p].prior.Some? {
      FinishedTailsResolve(s, s.calls[p].prior.value);
    }
  }
}
