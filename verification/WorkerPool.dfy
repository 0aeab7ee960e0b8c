// Workers that share a claim counter: src/recommendation/cold-start-candidate-generation.ts, and with a stop at the first
// failure src/recommendation/cold-start-scoring-input-builder.ts. Between two awaits a worker runs undisturbed.
module WorkerPool {
  import opened Options

  /** What reading an item ends with. The generation pool turns every failure into a value. */
  datatype Outcome<V> = Value(value: V) | Error

  /** The items by their outcomes, and whether the first failure stops the pool. */
  datatype Pool<V> = Pool(outcomes: seq<Outcome<V>>, concurrency: nat, stops: bool)

  datatype Worker = Ready | Reading(index: nat) | Returned

  datatype Cause = Item(index: nat) | Signal

  datatype State<V> = State(next: nat, workers: seq<Worker>, slots: seq<Option<V>>, aborted: bool, failure: Option<Cause>)

  datatype Step = Abort | Claim(w: nat) | Finish(w: nat)

  predicate Sensible<V>(p: Pool<V>) {
    p.concurrency >= 1 && (!p.stops ==> forall i :: 0 <= i < |p.outcomes| ==> p.outcomes[i].Value?)
  }

  function Fill<T>(n: nat, x: T): (r: seq<T>)
    ensures |r| == n && forall i :: 0 <= i < n ==> r[i] == x
  {
    seq(n, i => x)
  }

  /** As many workers as the concurrency allows, but no more than items. */
  function Start<V>(p: Pool<V>): State<V> {
    var n := |p.outcomes|;
    State(0, Fill(WorkerCount(p), Ready), Fill(n, None), false, None)
  }

  function WorkerCount<V>(p: Pool<V>): nat {
    if p.concurrency < |p.outcomes| then p.concurrency else |p.outcomes|
  }

  predicate Enabled<V>(s: State<V>, step: Step) {
    match step
    case Abort => !s.aborted
    case Claim(w) => w < |s.workers| && s.workers[w].Ready?
    case Finish(w) => w < |s.workers| && s.workers[w].Reading?
  }

  function Fail(failure: Option<Cause>, cause: Cause): Option<Cause> {
    if failure.None? then Some(cause) else failure
  }

  /** From the head of its loop to the next await, or to its end. */
  function Claimed<V>(p: Pool<V>, s: State<V>, w: nat): State<V>
    requires w < |s.workers|
  {
    if p.stops && s.failure.Some? then s.(workers := s.workers[w := Returned])
    else if s.aborted then
      s.(workers := s.workers[w := Returned], failure := if p.stops then Fail(s.failure, Signal) else s.failure)
    else if s.next >= |p.outcomes| then s.(next := s.next + 1, workers := s.workers[w := Returned])
    else s.(next := s.next + 1, workers := s.workers[w := Reading(s.next)])
  }

  /** From the end of its await back to the head of its loop. A worker reads only items that there are. */
  function Finished<V>(p: Pool<V>, s: State<V>, w: nat): State<V>
    requires w < |s.workers| && s.workers[w].Reading?
  {
    var i := s.workers[w].index;
    if i >= |p.outcomes| || i >= |s.slots| then s
    else if p.outcomes[i].Error? then s.(workers := s.workers[w := Returned], failure := Fail(s.failure, Item(i)))
    else if p.stops && s.aborted then s.(workers := s.workers[w := Returned], failure := Fail(s.failure, Signal))
    else if p.stops && s.failure.Some? then s.(workers := s.workers[w := Returned])
    else s.(workers := s.workers[w := Ready], slots := s.slots[i := Some(p.outcomes[i].value)])
  }

  function Next<V>(p: Pool<V>, s: State<V>, step: Step): State<V>
    requires Enabled(s, step)
  {
    match step
    case Abort => s.(aborted := true)
    case Claim(w) => Claimed(p, s, w)
    case Finish(w) => Finished(p, s, w)
  }

  // ---------------------------------------------------------------- the invariant

  /** A worker reads a claimed item whose slot is empty; without interruption it returns only when all items are claimed. */
  predicate WorkerSound<V>(p: Pool<V>, s: State<V>, w: nat)
    requires w < |s.workers| && |s.slots| == |p.outcomes|
  {
    match s.workers[w]
    case Ready => true
    case Reading(i) => i < s.next && i < |s.slots| && s.slots[i].None?
    case Returned => s.aborted || s.failure.Some? || s.next >= |p.outcomes|
  }

  /** No two workers read the same item. */
  predicate Apart(s: seq<Worker>, v: nat, w: nat)
    requires v < |s| && w < |s|
  {
    s[v].Reading? && s[w].Reading? ==> s[v].index != s[w].index
  }

  predicate BeingRead(workers: seq<Worker>, i: nat) {
    exists w :: 0 <= w < |workers| && workers[w] == Reading(i)
  }

  /** A filled slot holds the outcome of its item; without interruption every claimed item is read or its slot filled. */
  ghost predicate SlotSound<V>(p: Pool<V>, s: State<V>, i: nat)
    requires i < |s.slots| == |p.outcomes|
  {
    && (s.slots[i].Some? ==> i < s.next && p.outcomes[i].Value? && s.slots[i].value == p.outcomes[i].value)
    && (i < s.next && s.slots[i].None? && !s.aborted && s.failure.None? ==> BeingRead(s.workers, i))
  }

  ghost predicate Inv<V>(p: Pool<V>, s: State<V>) {
    && |s.slots| == |p.outcomes| && |s.workers| == WorkerCount(p)
    && (forall w {:trigger WorkerSound(p, s, w)} :: 0 <= w < |s.workers| ==> WorkerSound(p, s, w))
    && (forall v, w {:trigger Apart(s.workers, v, w)} :: 0 <= v < w < |s.workers| ==> Apart(s.workers, v, w))
    && (forall i {:trigger SlotSound(p, s, i)} :: 0 <= i < |s.slots| ==> SlotSound(p, s, i))
    && (s.failure.Some? && s.failure.value.Item? ==>
          s.failure.value.index < |p.outcomes| && p.outcomes[s.failure.value.index].Error?)
    && (s.failure.Some? && s.failure.value.Signal? ==> s.aborted)
  }

  lemma StartHolds<V>(p: Pool<V>)
    ensures Inv(p, Start(p))
  {
  }

  lemma ClaimKeeps<V>(p: Pool<V>, s: State<V>, w: nat)
    requires Inv(p, s) && w < |s.workers| && s.workers[w].Ready?
    ensures Inv(p, Claimed(p, s, w))
  {
    var t := Claimed(p, s, w);
    forall v | 0 <= v < |t.workers|
      ensures WorkerSound(p, t, v)
    {
      assert WorkerSound(p, s, v);
      if v == w && t.workers[w].Reading? {
        assert SlotSound(p, s, s.next);
      }
    }
    forall u, v | 0 <= u < v < |t.workers|
      ensures Apart(t.workers, u, v)
    {
      assert Apart(s.workers, u, v) && WorkerSound(p, s, u) && WorkerSound(p, s, v);
    }
    forall i | 0 <= i < |t.slots|
      ensures SlotSound(p, t, i)
    {
      assert SlotSound(p, s, i);
      if i == s.next && t.workers[w].Reading? {
        assert t.workers[w] == Reading(i);
      } else if BeingRead(s.workers, i) {
        var v :| 0 <= v < |s.workers| && s.workers[v] == Reading(i);
        assert t.workers[v] == Reading(i);
      }
    }
  }

  lemma FinishKeeps<V>(p: Pool<V>, s: State<V>, w: nat)
    requires Inv(p, s) && w < |s.workers| && s.workers[w].Reading?
    requires s.workers[w].index < |p.outcomes|
    ensures Inv(p, Finished(p, s, w))
  {
    var t := Finished(p, s, w);
    var done := s.workers[w].index;
    assert WorkerSound(p, s, w);
    forall v | 0 <= v < |t.workers|
      ensures WorkerSound(p, t, v)
    {
      assert WorkerSound(p, s, v);
      assert v < w ==> Apart(s.workers, v, w);
      assert w < v ==> Apart(s.workers, w, v);
    }
    forall u, v | 0 <= u < v < |t.workers|
      ensures Apart(t.workers, u, v)
    {
      assert Apart(s.workers, u, v);
    }
    forall i | 0 <= i < |t.slots|
      ensures SlotSound(p, t, i)
    {
      assert SlotSound(p, s, i);
      if i != done && BeingRead(s.workers, i) {
        var v :| 0 <= v < |s.workers| && s.workers[v] == Reading(i);
        assert t.workers[v] == Reading(i);
      }
    }
  }

  lemma StepKeeps<V>(p: Pool<V>, s: State<V>, step: Step)
    requires Inv(p, s) && Enabled(s, step)
    ensures Inv(p, Next(p, s, step))
  {
    match step
    case Abort =>
      var t := s.(aborted := true);
      assert forall w :: 0 <= w < |s.workers| && WorkerSound(p, s, w) ==> WorkerSound(p, t, w);
      assert forall i :: 0 <= i < |s.slots| && SlotSound(p, s, i) ==> SlotSound(p, t, i);
    case Claim(w) => ClaimKeeps(p, s, w);
    case Finish(w) =>
      assert WorkerSound(p, s, w);
      FinishKeeps(p, s, w);
  }

  // ---------------------------------------------------------------- whole runs

  /** The states of a run: any interleaving of the workers and the abort signal. */
  ghost predicate Run<V>(p: Pool<V>, states: seq<State<V>>, steps: seq<Step>) {
    && |states| == |steps| + 1 && states[0] == Start(p)
    && forall k {:trigger RunStep(p, states, steps, k)} :: 0 <= k < |steps| ==> RunStep(p, states, steps, k)
  }

  ghost predicate RunStep<V>(p: Pool<V>, states: seq<State<V>>, steps: seq<Step>, k: nat)
    requires k < |steps| && |states| == |steps| + 1
  {
    Enabled(states[k], steps[k]) && states[k + 1] == Next(p, states[k], steps[k])
  }

  lemma {:induction false} RunKeeps<V>(p: Pool<V>, states: seq<State<V>>, steps: seq<Step>, k: nat)
    requires Run(p, states, steps) && k <= |steps|
    ensures Inv(p, states[k])
  {
    if k == 0 {
      StartHolds(p);
    } else {
      RunKeeps(p, states, steps, k - 1);
      assert RunStep(p, states, steps, k - 1);
      StepKeeps(p, states[k - 1], steps[k - 1]);
    }
  }

  predicate AllReturned(workers: seq<Worker>) {
    forall w :: 0 <= w < |workers| ==> workers[w].Returned?
  }

  predicate Interrupted<V>(s: State<V>) {
    s.aborted || s.failure.Some?
  }

  /** The last state of a run in which all workers have returned. */
  ghost predicate Ends<V>(p: Pool<V>, states: seq<State<V>>, steps: seq<Step>, last: State<V>) {
    Run(p, states, steps) && last == states[|steps|] && AllReturned(last.workers)
  }

  /** When the workers are back without abort or failure, each slot holds the outcome of its item. */
  lemma SlotsHoldOutcomes<V>(p: Pool<V>, states: seq<State<V>>, steps: seq<Step>, last: State<V>)
    requires Sensible(p) && Ends(p, states, steps, last) && !Interrupted(last)
    ensures |last.slots| == |p.outcomes|
    ensures forall i :: 0 <= i < |p.outcomes| ==> p.outcomes[i].Value? && last.slots[i] == Some(p.outcomes[i].value)
  {
    RunKeeps(p, states, steps, |steps|);
    forall i | 0 <= i < |p.outcomes|
      ensures p.outcomes[i].Value? && last.slots[i] == Some(p.outcomes[i].value)
    {
      assert WorkerSound(p, last, 0);
      assert SlotSound(p, last, i);
    }
  }

  /** Interleaving and concurrency do not show: pools over the same items end with the same slots, one worker or many. */
  lemma InterleavingDoesNotMatter<V>(p: Pool<V>, states: seq<State<V>>, steps: seq<Step>, last: State<V>,
                                     q: Pool<V>, states': seq<State<V>>, steps': seq<Step>, last': State<V>)
    requires p.outcomes == q.outcomes && Sensible(p) && Sensible(q)
    requires Ends(p, states, steps, last) && Ends(q, states', steps', last') && !Interrupted(last) && !Interrupted(last')
    ensures last.slots == last'.slots
  {
    SlotsHoldOutcomes(p, states, steps, last);
    SlotsHoldOutcomes(q, states', steps', last');
  }

  /** Unless aborted, a pool fails exactly when some item does, and then with the failure of such an item. */
  lemma FailsExactlyWhenAnItemFails<V>(p: Pool<V>, states: seq<State<V>>, steps: seq<Step>, last: State<V>)
    requires Sensible(p) && Ends(p, states, steps, last) && !last.aborted
    ensures last.failure.Some? <==> exists i :: 0 <= i < |p.outcomes| && p.outcomes[i].Error?
    ensures last.failure.Some? ==>
      last.failure.value.Item? && last.failure.value.index < |p.outcomes| && p.outcomes[last.failure.value.index].Error?
  {
    RunKeeps(p, states, steps, |steps|);
    if last.failure.None? {
      SlotsHoldOutcomes(p, states, steps, last);
    }
  }

  // ---------------------------------------------------------------- at most so many at once

  function ReadBy(workers: seq<Worker>): (r: set<nat>)
    ensures forall i :: i in r <==> BeingRead(workers, i)
  {
    if workers == [] then {}
    else
      var n := |workers| - 1;
      assert workers == workers[..n] + [workers[n]];
      assert forall i :: BeingRead(workers, i) <==> BeingRead(workers[..n], i) || workers[n] == Reading(i);
      ReadBy(workers[..n]) + (if workers[n].Reading? then {workers[n].index} else {})
  }

  lemma {:induction false} ReadAtOnce(workers: seq<Worker>)
    ensures |ReadBy(workers)| <= |workers|
  {
    if workers != [] {
      ReadAtOnce(workers[..|workers| - 1]);
    }
  }

  /** In every state of every run no more items are being read than the concurrency allows, each by one worker. */
  lemma AtMostConcurrencyInFlight<V>(p: Pool<V>, states: seq<State<V>>, steps: seq<Step>, k: nat)
    requires Run(p, states, steps) && k <= |steps|
    ensures |ReadBy(states[k].workers)| <= p.concurrency
    ensures forall v, w :: 0 <= v < w < |states[k].workers| ==> Apart(states[k].workers, v, w)
  {
    RunKeeps(p, states, steps, k);
    ReadAtOnce(states[k].workers);
  }

  // ---------------------------------------------------------------- each item is claimed once

  /** Step k starts the reading of item i. */
  ghost predicate Starts<V>(states: seq<State<V>>, steps: seq<Step>, k: nat, i: nat)
    requires k < |steps| && |states| == |steps| + 1
  {
    steps[k].Claim? && steps[k].w < |states[k + 1].workers| && states[k + 1].workers[steps[k].w] == Reading(i)
  }

  lemma {:induction false} CounterRises<V>(p: Pool<V>, states: seq<State<V>>, steps: seq<Step>, j: nat, k: nat)
    requires Run(p, states, steps) && j <= k <= |steps|
    ensures states[j].next <= states[k].next
    decreases k
  {
    if j < k {
      CounterRises(p, states, steps, j, k - 1);
      assert RunStep(p, states, steps, k - 1);
    }
  }

  lemma ItemsAreClaimedOnce<V>(p: Pool<V>, states: seq<State<V>>, steps: seq<Step>, j: nat, k: nat, i: nat)
    requires Run(p, states, steps) && j < |steps| && k < |steps| && Starts(states, steps, j, i) && Starts(states, steps, k, i)
    ensures j == k
  {
    assert RunStep(p, states, steps, j) && RunStep(p, states, steps, k);
    if j < k {
      CounterRises(p, states, steps, j + 1, k);
    } else if k < j {
      CounterRises(p, states, steps, k + 1, j);
    }
  }

  // ---------------------------------------------------------------- runs end

  function Weight(w: Worker): nat {
    match w
    case Ready => 1
    case Reading(_) => 2
    case Returned => 0
  }

  function Weights(workers: seq<Worker>): nat {
    if workers == [] then 0 else Weights(workers[..|workers| - 1]) + Weight(workers[|workers| - 1])
  }

  lemma {:induction false} WeightsUpdate(workers: seq<Worker>, w: nat, x: Worker)
    requires w < |workers|
    ensures Weights(workers[w := x]) == Weights(workers) - Weight(workers[w]) + Weight(x)
  {
    var n := |workers| - 1;
    if w == n {
      assert workers[w := x][..n] == workers[..n];
    } else {
      WeightsUpdate(workers[..n], w, x);
      assert workers[w := x][..n] == workers[..n][w := x];
    }
  }

  lemma {:induction false} WeightsOfReady(n: nat)
    ensures Weights(Fill(n, Ready)) == n
  {
    if n > 0 {
      WeightsOfReady(n - 1);
      assert Fill(n, Ready)[..n - 1] == Fill(n - 1, Ready);
    }
  }

  /** What is still to be done. */
  function ToDo<V>(p: Pool<V>, s: State<V>): nat {
    (if s.aborted then 0 else 1) + (if s.next < |p.outcomes| then 2 * (|p.outcomes| - s.next) else 0) + Weights(s.workers)
  }

  lemma StepsFinish<V>(p: Pool<V>, s: State<V>, step: Step)
    requires Inv(p, s) && Enabled(s, step)
    ensures ToDo(p, Next(p, s, step)) < ToDo(p, s)
  {
    if step.Claim? {
      WeightsUpdate(s.workers, step.w, Returned);
      WeightsUpdate(s.workers, step.w, Reading(s.next));
    } else if step.Finish? {
      assert WorkerSound(p, s, step.w);
      WeightsUpdate(s.workers, step.w, Returned);
      WeightsUpdate(s.workers, step.w, Ready);
    }
  }

  lemma {:induction false} RunsShorten<V>(p: Pool<V>, states: seq<State<V>>, steps: seq<Step>, k: nat)
    requires Run(p, states, steps) && k <= |steps|
    ensures ToDo(p, states[k]) + k <= ToDo(p, Start(p))
  {
    if k > 0 {
      RunsShorten(p, states, steps, k - 1);
      RunKeeps(p, states, steps, k - 1);
      assert RunStep(p, states, steps, k - 1);
      StepsFinish(p, states[k - 1], steps[k - 1]);
    }
  }

  /** Every run ends: it has at most three steps for each item, and one for the signal. */
  lemma RunsEnd<V>(p: Pool<V>, states: seq<State<V>>, steps: seq<Step>)
    requires Run(p, states, steps)
    ensures |steps| <= 3 * |p.outcomes| + 1
  {
    RunsShorten(p, states, steps, |steps|);
    WeightsOfReady(WorkerCount(p));
  }

  /** Until all workers have returned, some worker can take a step. */
  lemma NothingBlocks<V>(s: State<V>)
    ensures AllReturned(s.workers) || exists w :: Enabled(s, Claim(w)) || Enabled(s, Finish(w))
  {
    if !AllReturned(s.workers) {
      var w :| 0 <= w < |s.workers| && !s.workers[w].Returned?;
      assert Enabled(s, Claim(w)) || Enabled(s, Finish(w));
    }
  }
}
