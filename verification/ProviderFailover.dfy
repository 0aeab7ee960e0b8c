/** Failover between ANN providers: circuits, retries, fallback and the ring of recent events: src/ann/orchestrator.ts. */
module ProviderFailover {
  import opened Options

  datatype Operation = Search | Stats | Upsert | Delete

  datatype Event =
    | ProviderFailure(provider: string, operation: Operation)
    | ProviderRecovered(provider: string)
    | ProviderSelected(provider: string)
    | ProviderRetry(provider: string, operation: Operation, attempt: nat, delayMs: nat)

  datatype FailureState = FailureState(failures: nat, retryAfter: int)

  datatype Settings = Settings(
    failOpen: bool, healthCheckOnInit: bool, failureCooldownMs: nat, circuitBreakerThreshold: nat,
    retryAttempts: nat, initialRetryDelayMs: nat, maxRetryDelayMs: nat, retryWrites: bool, eventHistoryLimit: nat)

  /** What the constructor makes of the options. */
  predicate Bounded(s: Settings) {
    s.circuitBreakerThreshold >= 1 && 1 <= s.retryAttempts <= 8 && s.initialRetryDelayMs >= 1 && s.eventHistoryLimit <= 10_000
  }

  // ---------------------------------------------------------------- histories

  /** A failure charged to a provider, with the time, or its failures being cleared. */
  datatype Happening = Failed(provider: string, at: int) | Cleared(provider: string)

  function FailuresSinceClear(history: seq<Happening>, provider: string): nat {
    if history == [] then 0
    else
      var last, before := history[|history| - 1], FailuresSinceClear(history[..|history| - 1], provider);
      if last.provider != provider then before else if last.Cleared? then 0 else before + 1
  }

  function LastFailure(history: seq<Happening>, provider: string): Option<int> {
    if history == [] then None
    else
      var last := history[|history| - 1];
      if last.Failed? && last.provider == provider then Some(last.at) else LastFailure(history[..|history| - 1], provider)
  }

  /** Enough failures since the last clear, the last of them less than the cooldown ago. */
  ghost predicate CircuitOpen(s: Settings, history: seq<Happening>, provider: string, now: int) {
    && FailuresSinceClear(history, provider) >= s.circuitBreakerThreshold
    && LastFailure(history, provider).Some?
    && now < LastFailure(history, provider).value + s.failureCooldownMs
  }

  lemma {:induction false} FailuresHaveATime(history: seq<Happening>, provider: string)
    ensures FailuresSinceClear(history, provider) > 0 ==> LastFailure(history, provider).Some?
  {
    if history != [] {
      FailuresHaveATime(history[..|history| - 1], provider);
    }
  }

  lemma HistoryNext(history: seq<Happening>, h: Happening, provider: string)
    ensures var more := history + [h];
      && FailuresSinceClear(more, provider) ==
         (if h.provider != provider then FailuresSinceClear(history, provider)
          else if h.Cleared? then 0 else FailuresSinceClear(history, provider) + 1)
      && LastFailure(more, provider) ==
         (if h.Failed? && h.provider == provider then Some(h.at) else LastFailure(history, provider))
  {
    assert (history + [h])[..|history|] == history;
  }

  /** An open circuit closes again with time alone, and stays closed until the next failure. */
  lemma CircuitClosesInTime(s: Settings, history: seq<Happening>, provider: string, now: int, later: int)
    requires now <= later
    ensures CircuitOpen(s, history, provider, later) ==> CircuitOpen(s, history, provider, now)
    ensures LastFailure(history, provider).Some? && later >= LastFailure(history, provider).value + s.failureCooldownMs
      ==> !CircuitOpen(s, history, provider, later)
  {
  }

  /** A failure opens its provider's circuit exactly if it reaches the threshold, and for exactly the cooldown. */
  lemma FailureOpensExactly(s: Settings, history: seq<Happening>, provider: string, at: int, later: int)
    ensures CircuitOpen(s, history + [Failed(provider, at)], provider, later)
      <==> FailuresSinceClear(history, provider) + 1 >= s.circuitBreakerThreshold && later < at + s.failureCooldownMs
  {
    HistoryNext(history, Failed(provider, at), provider);
  }

  /** A clear closes the provider's circuit; what happens to other providers leaves it as it is. */
  lemma OnlyOwnFailuresOpen(s: Settings, history: seq<Happening>, h: Happening, provider: string, now: int)
    requires Bounded(s)
    ensures h == Cleared(provider) ==> !CircuitOpen(s, history + [h], provider, now)
    ensures h.provider != provider ==> (CircuitOpen(s, history + [h], provider, now) <==> CircuitOpen(s, history, provider, now))
  {
    HistoryNext(history, h, provider);
  }

  /** What is kept of one provider's failures. */
  ghost predicate Tells(s: Settings, failures: map<string, FailureState>, history: seq<Happening>, provider: string) {
    var count, last := FailuresSinceClear(history, provider), LastFailure(history, provider);
    && (provider in failures <==> count > 0)
    && (provider in failures ==>
          failures[provider] ==
          FailureState(count, if count >= s.circuitBreakerThreshold && last.Some? then last.value + s.failureCooldownMs else 0))
  }

  ghost predicate AllTell(s: Settings, failures: map<string, FailureState>, history: seq<Happening>) {
    forall provider {:trigger Tells(s, failures, history, provider)} :: Tells(s, failures, history, provider)
  }

  /** The kept failures after one more failure, or after a clear. */
  function Noted(s: Settings, failures: map<string, FailureState>, h: Happening): map<string, FailureState> {
    if h.Cleared? then failures - {h.provider}
    else
      var count := (if h.provider in failures then failures[h.provider].failures else 0) + 1;
      failures[h.provider := FailureState(count, if count >= s.circuitBreakerThreshold then h.at + s.failureCooldownMs else 0)]
  }

  /** What is kept of every provider still tells its history. */
  lemma TellsStill(s: Settings, failures: map<string, FailureState>, history: seq<Happening>, h: Happening,
                   after: map<string, FailureState>)
    requires AllTell(s, failures, history) && after == Noted(s, failures, h)
    ensures AllTell(s, after, history + [h])
  {
    forall provider
      ensures Tells(s, after, history + [h], provider)
    {
      HistoryNext(history, h, provider);
      assert Tells(s, failures, history, provider);
    }
  }

  // ---------------------------------------------------------------- dealings with the providers

  datatype Outcome = Done | Threw

  datatype Answer = Healthy | Sick | Failing

  /** Whether a candidate was taken, was passed over, or the whole call failed. */
  datatype Verdict = Taken | Passed | Stopped

  /** A candidate's circuit was looked at, its health was checked, or the operation ran on it. */
  datatype Deed = Asked(candidate: nat, open: bool) | Checked(candidate: nat, answer: Answer) | Ran(candidate: nat, outcome: Outcome)

  /** How often a candidate was operated on. */
  function Runs(did: seq<Deed>, candidate: nat): nat {
    if did == [] then 0
    else
      var last := did[|did| - 1];
      Runs(did[..|did| - 1], candidate) + (if last.Ran? && last.candidate == candidate then 1 else 0)
  }

  lemma {:induction false} RunsAdd(before: seq<Deed>, did: seq<Deed>, candidate: nat)
    ensures Runs(before + did, candidate) == Runs(before, candidate) + Runs(did, candidate)
  {
    var all := before + did;
    if did == [] {
      assert all == before;
    } else {
      RunsAdd(before, did[..|did| - 1], candidate);
      assert all[..|all| - 1] == before + did[..|did| - 1];
    }
  }

  /** One operation on one candidate: it is run until it succeeds or is given up, and no more often than allowed. */
  ghost predicate Attempted(did: seq<Deed>, candidate: nat, attempts: nat) {
    && 1 <= |did| <= attempts && did[|did| - 1].Ran? && did[|did| - 1].candidate == candidate
    && forall k :: 0 <= k < |did| - 1 ==> did[k] == Ran(candidate, Threw)
  }

  lemma {:induction false} RunsOfOne(did: seq<Deed>, candidate: nat, i: nat)
    requires forall d :: d in did ==> d.Ran? ==> d.candidate == candidate
    ensures Runs(did, i) <= if i == candidate then |did| else 0
  {
    if did != [] {
      RunsOfOne(did[..|did| - 1], candidate, i);
    }
  }

  /** The candidate's circuit was open, or it was not healthy. */
  predicate TurnedDown(did: seq<Deed>, candidate: nat) {
    Asked(candidate, true) in did || Checked(candidate, Sick) in did || Checked(candidate, Failing) in did
  }

  lemma TurnedDownStill(before: seq<Deed>, turn: seq<Deed>, candidate: nat)
    requires TurnedDown(before, candidate) || TurnedDown(turn, candidate)
    ensures TurnedDown(before + turn, candidate)
  {
  }

  predicate NothingRan(did: seq<Deed>) {
    forall d :: d in did ==> !d.Ran?
  }

  predicate NothingWorked(did: seq<Deed>) {
    forall d :: d in did ==> d.Ran? ==> d.outcome.Threw?
  }

  /** What a candidate's turn in the selection did, and what it charged to the provider. */
  predicate Considered(s: Settings, did: seq<Deed>, candidate: nat, provider: string, happened: seq<Happening>,
                       at: int, threw: bool, verdict: Verdict) {
    && did != [] && did[0].Asked? && did[0].candidate == candidate && (verdict.Stopped? ==> threw)
    && if did[0].open then |did| == 1 && happened == [] && verdict.Passed?
       else if !s.healthCheckOnInit then |did| == 1 && happened == [] && !verdict.Passed?
       else
         && |did| == 2 && did[1].Checked? && did[1].candidate == candidate
         && match did[1].answer
            case Sick => happened == [] && verdict.Passed?
            case Failing => happened == [Failed(provider, at)] && !verdict.Taken?
            case Healthy =>
              if verdict.Taken? then happened == [Cleared(provider)]
              else threw && happened == [Cleared(provider), Failed(provider, at)]
  }

  /** What checking a candidate, and running the operation on it if it is healthy, did. */
  ghost predicate Examined(s: Settings, did: seq<Deed>, candidate: nat, answer: Answer, outcome: Outcome, threw: bool) {
    && did != [] && did[0] == Checked(candidate, answer)
    && match answer
       case Sick => |did| == 1 && outcome.Done?
       case Failing => |did| == 1 && outcome.Threw?
       case Healthy =>
         if |did| == 1 then threw && outcome.Threw?
         else Attempted(did[1..], candidate, s.retryAttempts) && outcome == did[|did| - 1].outcome
  }

  lemma ExaminedIsTried(s: Settings, exam: seq<Deed>, candidate: nat, provider: string, answer: Answer, happened: seq<Happening>,
                        at: int, threw: bool, threwAtAll: bool, verdict: Verdict)
    requires Examined(s, exam, candidate, answer, if verdict.Taken? || answer.Sick? then Done else Threw, threw)
    requires (threw ==> threwAtAll) && (verdict.Stopped? ==> threwAtAll) && (answer.Sick? ==> verdict.Passed?)
    requires happened ==
      (if answer.Healthy? then [Cleared(provider)] else []) +
      (if verdict.Taken? || answer.Sick? then [] else [Failed(provider, at)])
    ensures Tried(s, [Asked(candidate, false)] + exam, candidate, provider, happened, at, threwAtAll, verdict)
  {
    var did := [Asked(candidate, false)] + exam;
    assert did[2..] == exam[1..];
  }

  /** Unless a listener threw, only a candidate that is turned down is passed over in the selection. */
  lemma PassedIsTurnedDown(s: Settings, did: seq<Deed>, candidate: nat, provider: string, happened: seq<Happening>,
                           at: int, verdict: Verdict)
    requires Considered(s, did, candidate, provider, happened, at, false, verdict) && verdict.Passed?
    ensures TurnedDown(did, candidate)
  {
    assert did[0] in did;
    if |did| > 1 {
      assert did[1] in did;
    }
  }

  /** What a candidate's turn as a fallback did, and what it charged to the provider. */
  ghost predicate Tried(s: Settings, did: seq<Deed>, candidate: nat, provider: string, happened: seq<Happening>,
                        at: int, threw: bool, verdict: Verdict) {
    && did != [] && did[0].Asked? && did[0].candidate == candidate && (verdict.Stopped? ==> threw)
    && if did[0].open then |did| == 1 && happened == [] && verdict.Passed?
       else
         && |did| >= 2 && did[1].Checked? && did[1].candidate == candidate
         && match did[1].answer
            case Sick => |did| == 2 && happened == [] && verdict.Passed?
            case Failing => |did| == 2 && happened == [Failed(provider, at)] && !verdict.Taken?
            case Healthy =>
              && happened == [Cleared(provider)] + (if verdict.Taken? then [] else [Failed(provider, at)])
              && if |did| == 2 then threw && !verdict.Taken?
                 else Attempted(did[2..], candidate, s.retryAttempts) && (verdict.Taken? <==> did[|did| - 1].outcome.Done?)
  }

  /** A fallback that was not taken was turned down or ran in vain, unless a listener threw. */
  lemma TriedInVain(s: Settings, did: seq<Deed>, candidate: nat, provider: string, happened: seq<Happening>,
                    at: int, threw: bool, verdict: Verdict)
    requires Tried(s, did, candidate, provider, happened, at, threw, verdict) && !verdict.Taken?
    ensures NothingWorked(did)
    ensures threw || TurnedDown(did, candidate) || Ran(candidate, Threw) in did
  {
    assert did[0] in did;
    if |did| > 1 {
      assert did[1] in did;
    }
    if |did| > 2 {
      assert did[|did| - 1] == did[2..][|did| - 3];
      forall d | d in did
        ensures d.Ran? ==> d.outcome.Threw?
      {
        var k :| 0 <= k < |did| && did[k] == d;
        if k >= 2 {
          assert d == did[2..][k - 2];
        }
      }
    }
  }

  /** A fallback that was taken succeeded with its last run, and only with that. */
  lemma TakenWorked(s: Settings, did: seq<Deed>, candidate: nat, provider: string, happened: seq<Happening>,
                    at: int, threw: bool, verdict: Verdict)
    requires Tried(s, did, candidate, provider, happened, at, threw, verdict) && verdict.Taken?
    ensures did[|did| - 1] == Ran(candidate, Done) && NothingWorked(did[..|did| - 1])
  {
    assert did[|did| - 1] == did[2..][|did| - 3];
    forall d | d in did[..|did| - 1]
      ensures d.Ran? ==> d.outcome.Threw?
    {
      var k :| 0 <= k < |did| - 1 && did[k] == d;
      if k >= 2 {
        assert d == did[2..][k - 2];
      }
    }
  }

  /** Only the candidate itself is run in its turn, and at most as often as the attempts allow. */
  lemma RunsInTurn(s: Settings, did: seq<Deed>, candidate: nat, provider: string, happened: seq<Happening>,
                   at: int, threw: bool, verdict: Verdict, i: nat)
    requires Tried(s, did, candidate, provider, happened, at, threw, verdict)
    ensures Runs(did, i) <= if i == candidate then s.retryAttempts else 0
  {
    if |did| > 2 {
      assert did == did[..2] + did[2..];
      RunsAdd(did[..2], did[2..], i);
      RunsOfNone(did[..2], i);
      RunsOfOne(did[2..], candidate, i);
    } else {
      RunsOfNone(did, i);
    }
  }

  lemma {:induction false} RunsOfNone(did: seq<Deed>, i: nat)
    requires NothingRan(did)
    ensures Runs(did, i) == 0
  {
    if did != [] {
      RunsOfNone(did[..|did| - 1], i);
    }
  }

  /** Every provider that ran is charged with a failure since its last clear. */
  ghost predicate Charged(candidates: seq<string>, history: seq<Happening>, did: seq<Deed>) {
    forall d :: d in did && d.Ran? ==>
      d.candidate < |candidates| && FailuresSinceClear(history, candidates[d.candidate]) > 0
  }

  lemma StillCharged(s: Settings, candidates: seq<string>, history: seq<Happening>, before: seq<Deed>, did: seq<Deed>,
                     candidate: nat, happened: seq<Happening>, at: int, threw: bool, verdict: Verdict)
    requires candidate < |candidates| && Charged(candidates, history, before) && !verdict.Taken?
    requires Tried(s, did, candidate, candidates[candidate], happened, at, threw, verdict)
    ensures Charged(candidates, history + happened, before + did)
  {
    var provider := candidates[candidate];
    forall q: string
      ensures FailuresSinceClear(history, q) > 0 || (q == provider && |did| > 2) ==> FailuresSinceClear(history + happened, q) > 0
    {
      if happened == [] {
        assert history + happened == history;
      } else if |happened| == 1 {
        HistoryNext(history, Failed(provider, at), q);
      } else {
        HistoryNext(history, Cleared(provider), q);
        HistoryNext(history + [Cleared(provider)], Failed(provider, at), q);
        assert history + happened == history + [Cleared(provider)] + [Failed(provider, at)];
      }
    }
    forall d | d in did && d.Ran?
      ensures d.candidate == candidate && |did| > 2
    {
      var k :| 0 <= k < |did| && did[k] == d;
      if k >= 2 {
        assert d == did[2..][k - 2];
      }
    }
  }

  lemma AttemptsCharged(candidates: seq<string>, history: seq<Happening>, asked: seq<Deed>, runs: seq<Deed>, candidate: nat, attempts: nat)
    requires NothingRan(asked) && Attempted(runs, candidate, attempts) && candidate < |candidates|
    requires FailuresSinceClear(history, candidates[candidate]) > 0
    ensures Charged(candidates, history, asked + runs)
    ensures Ran(candidate, runs[|runs| - 1].outcome) in asked + runs
    ensures NothingWorked((asked + runs)[..|asked + runs| - 1])
    ensures runs[|runs| - 1].outcome.Threw? ==> NothingWorked(asked + runs)
  {
    AttemptsInVain(asked, runs, candidate, attempts);
    assert runs[|runs| - 1] in asked + runs;
  }

  lemma AttemptsInVain(asked: seq<Deed>, runs: seq<Deed>, candidate: nat, attempts: nat)
    requires NothingRan(asked) && Attempted(runs, candidate, attempts)
    ensures NothingWorked((asked + runs)[..|asked + runs| - 1])
    ensures runs[|runs| - 1].outcome.Threw? ==> NothingWorked(asked + runs)
  {
    assert (asked + runs)[..|asked + runs| - 1] == asked + runs[..|runs| - 1];
  }

  /** The candidate, or one of the same name, was turned down or ran in vain. */
  ghost predicate Refused(candidates: seq<string>, did: seq<Deed>, j: nat)
    requires j < |candidates|
  {
    TurnedDown(did, j) || exists k :: 0 <= k < |candidates| && candidates[k] == candidates[j] && Ran(k, Threw) in did
  }

  lemma RefusedStill(candidates: seq<string>, before: seq<Deed>, turn: seq<Deed>, j: nat)
    requires j < |candidates| && (Refused(candidates, before, j) || Refused(candidates, turn, j))
    ensures Refused(candidates, before + turn, j)
  {
    var all := before + turn;
    if !TurnedDown(all, j) {
      var k :| 0 <= k < |candidates| && candidates[k] == candidates[j] && (Ran(k, Threw) in before || Ran(k, Threw) in turn);
      assert Ran(k, Threw) in all;
    }
  }

  /** Runs of the primary and of the candidates before the i-th, each within the attempts. */
  ghost predicate RunsUpTo(did: seq<Deed>, primary: nat, i: nat, attempts: nat) {
    forall k: nat {:trigger Runs(did, k)} :: Runs(did, k) <= if k < i || k == primary then attempts else 0
  }

  lemma PrimaryRuns(asked: seq<Deed>, runs: seq<Deed>, primary: nat, attempts: nat)
    requires NothingRan(asked) && Attempted(runs, primary, attempts)
    ensures RunsUpTo(asked + runs, primary, 0, attempts)
  {
    forall k: nat
      ensures Runs(asked + runs, k) <= if k == primary then attempts else 0
    {
      RunsAdd(asked, runs, k);
      RunsOfNone(asked, k);
      RunsOfOne(runs, primary, k);
    }
  }

  lemma RunsOneMore(s: Settings, before: seq<Deed>, did: seq<Deed>, primary: nat, candidate: nat, provider: string,
                    happened: seq<Happening>, at: int, threw: bool, verdict: Verdict)
    requires RunsUpTo(before, primary, candidate, s.retryAttempts) && candidate != primary
    requires Tried(s, did, candidate, provider, happened, at, threw, verdict)
    ensures RunsUpTo(before + did, primary, candidate + 1, s.retryAttempts)
  {
    forall k: nat
      ensures Runs(before + did, k) <= if k < candidate + 1 || k == primary then s.retryAttempts else 0
    {
      RunsAdd(before, did, k);
      RunsInTurn(s, did, candidate, provider, happened, at, threw, verdict, k);
      assert Runs(before, k) <= if k < candidate || k == primary then s.retryAttempts else 0;
    }
  }

  /** The first candidate, in their order, that was not turned down; none if all were. */
  predicate Chosen(s: Settings, count: nat, did: seq<Deed>, selected: Option<nat>) {
    && (selected.Some? ==>
          && selected.value < count && Asked(selected.value, false) in did
          && (s.healthCheckOnInit ==> Checked(selected.value, Healthy) in did))
    && forall j :: 0 <= j < (if selected.Some? then selected.value else count) ==> TurnedDown(did, j)
  }

  function Smaller(a: nat, b: nat): nat {
    if a < b then a else b
  }

  function Spread(baseDelayMs: nat): nat {
    if baseDelayMs / 5 > 1 then baseDelayMs / 5 else 1
  }

  /** The delay before the next attempt, without jitter: it doubles with every attempt up to the maximum. */
  function Backoff(s: Settings, attempt: nat): nat
    requires attempt >= 1
  {
    if attempt == 1 then s.initialRetryDelayMs else Smaller(s.maxRetryDelayMs, 2 * Backoff(s, attempt - 1))
  }

  function TwoTo(n: nat): nat {
    if n == 0 then 1 else 2 * TwoTo(n - 1)
  }

  /** The n-th retry waits 2^(n-1) times the initial delay, but from the second on no longer than the maximum. */
  lemma {:induction false} BackoffDoubles(s: Settings, attempt: nat)
    requires attempt >= 1
    ensures var doubled := s.initialRetryDelayMs * TwoTo(attempt - 1);
      Backoff(s, attempt) == if attempt == 1 || doubled < s.maxRetryDelayMs then doubled else s.maxRetryDelayMs
  {
    if attempt > 1 {
      BackoffDoubles(s, attempt - 1);
      var before := s.initialRetryDelayMs * TwoTo(attempt - 2);
      assert s.initialRetryDelayMs * TwoTo(attempt - 1) == 2 * before;
      if attempt == 2 {
        assert TwoTo(0) == 1;
      }
    }
  }

  /** The event of a retry after this attempt, delayed by its backoff and at most a fifth more. */
  predicate IsRetry(s: Settings, event: Event, provider: string, operation: Operation, attempt: nat)
    requires attempt >= 1
  {
    var delayMs := Backoff(s, attempt);
    && event.ProviderRetry? && event.provider == provider && event.operation == operation && event.attempt == attempt
    && Smaller(delayMs, s.maxRetryDelayMs) <= event.delayMs <= Smaller(delayMs + Spread(delayMs), s.maxRetryDelayMs)
  }

  /** These are the events of as many retries in a row. */
  ghost predicate Retries(s: Settings, events: seq<Event>, provider: string, operation: Operation) {
    forall k :: 0 <= k < |events| ==> IsRetry(s, events[k], provider, operation, k + 1)
  }

  lemma RetriesMore(s: Settings, events: seq<Event>, event: Event, provider: string, operation: Operation)
    requires Retries(s, events, provider, operation) && IsRetry(s, event, provider, operation, |events| + 1)
    ensures Retries(s, events + [event], provider, operation)
  {
  }

  /** The delay before a retry, jittered by at most a fifth; `drawn` is what the random source gives. */
  function RetryDelay(baseDelayMs: nat, maxDelayMs: nat, drawn: real): (delay: nat)
    ensures delay <= maxDelayMs
    ensures delay >= Smaller(baseDelayMs, maxDelayMs)
    ensures delay <= baseDelayMs + Spread(baseDelayMs)
  {
    var random := if drawn < 0.0 then 0.0 else if drawn > 1.0 then 1.0 else drawn;
    Smaller(maxDelayMs, baseDelayMs + Jitter(random, Spread(baseDelayMs)))
  }

  function Jitter(random: real, spread: nat): (jitter: nat)
    requires 0.0 <= random <= 1.0
    ensures jitter <= spread
  {
    ScalesDown(random, spread as real);
    (random * spread as real).Floor
  }

  lemma ScalesDown(random: real, x: real)
    requires 0.0 <= random <= 1.0 && x >= 0.0
    ensures 0.0 <= random * x <= x
  {
  }

  // ---------------------------------------------------------------- the ring

  /** The k-th event of the ring, oldest first: from the cursor to the end, and then from the start. */
  function RingAt(events: seq<Event>, cursor: nat, k: nat): Event
    requires cursor <= |events| && k < |events|
  {
    if cursor + k < |events| then events[cursor + k] else events[cursor + k - |events|]
  }

  /** The ring holds the last of all events, as many as there are and the limit allows. */
  ghost predicate RingHolds(limit: nat, events: seq<Event>, cursor: nat, emitted: seq<Event>) {
    var n := |emitted|;
    && |events| == (if n < limit then n else limit)
    && cursor <= |events| && (n < limit ==> cursor == n) && (n >= limit > 0 ==> cursor < limit)
    && forall k {:trigger RingAt(events, cursor, k)} :: 0 <= k < |events| ==>
         RingAt(events, cursor, k) == emitted[n - |events| + k]
  }

  lemma WrapsOnce(k: nat, limit: nat)
    requires k < 2 * limit
    ensures k % limit == if k < limit then k else k - limit
  {
  }

  function Written(events: seq<Event>, cursor: nat, event: Event): seq<Event>
    requires cursor <= |events|
  {
    if cursor < |events| then events[cursor := event] else events + [event]
  }

  /** Writing at the cursor appends while there is room, and then replaces the oldest event by the newest. */
  lemma RingNext(limit: nat, events: seq<Event>, cursor: nat, emitted: seq<Event>, event: Event)
    requires limit > 0 && RingHolds(limit, events, cursor, emitted)
    ensures RingHolds(limit, Written(events, cursor, event), (cursor + 1) % limit, emitted + [event])
  {
    var more, next := Written(events, cursor, event), (cursor + 1) % limit;
    WrapsOnce(cursor + 1, limit);
    var n := |emitted|;
    forall k | 0 <= k < |more|
      ensures RingAt(more, next, k) == (emitted + [event])[n + 1 - |more| + k]
    {
      if n >= limit && k + 1 < |events| {
        assert RingAt(events, cursor, k + 1) == emitted[n - |events| + k + 1];
      }
      if n < limit && k < |events| {
        assert RingAt(events, cursor, k) == emitted[n - |events| + k];
      }
    }
  }

  // ---------------------------------------------------------------- the steps of a call

  /** The failures so far, the time, and how often a listener has thrown. */
  datatype Standing = Standing(history: seq<Happening>, clock: int, throws: nat)

  predicate ListenerThrew(before: Standing, after: Standing) {
    after.throws > before.throws
  }

  /** At some time between, the provider's circuit was found open, or closed. */
  ghost predicate AskedBetween(s: Settings, history: seq<Happening>, provider: string, early: int, late: int, open: bool) {
    exists t :: early <= t <= late && (open <==> CircuitOpen(s, history, provider, t))
  }

  /** A candidate's turn in the selection. */
  ghost predicate Selecting(s: Settings, names: seq<string>, before: Standing, c: nat, did: seq<Deed>, verdict: Verdict,
                            after: Standing)
    requires c < |names|
  {
    && after.throws >= before.throws
    && exists happened {:trigger Considered(s, did, c, names[c], happened, after.clock, ListenerThrew(before, after), verdict)} ::
      && after.history == before.history + happened
      && Considered(s, did, c, names[c], happened, after.clock, ListenerThrew(before, after), verdict)
      && AskedBetween(s, before.history, names[c], before.clock, after.clock, did[0].open)
  }

  /** The candidates before the i-th were passed over. */
  ghost predicate SelectedTo(s: Settings, names: seq<string>, before: Standing, i: nat, did: seq<Deed>, after: Standing)
    requires i <= |names|
  {
    if i == 0 then did == [] && after == before
    else
      exists first: seq<Deed>, mid: Standing, last: seq<Deed>
        {:trigger first + last, Selecting(s, names, mid, i - 1, last, Passed, after)} ::
        && SelectedTo(s, names, before, i - 1, first, mid)
        && Selecting(s, names, mid, i - 1, last, Passed, after)
        && did == first + last
  }

  /** The selection ended at the i-th candidate. */
  ghost predicate SelectionEnds(s: Settings, names: seq<string>, before: Standing, i: nat, did: seq<Deed>, verdict: Verdict,
                                after: Standing)
    requires i < |names|
  {
    exists first: seq<Deed>, mid: Standing, last: seq<Deed> ::
      && SelectedTo(s, names, before, i, first, mid)
      && Selecting(s, names, mid, i, last, verdict, after)
      && did == first + last
  }

  /** The candidates were gone through for one to select. */
  ghost predicate Scanned(s: Settings, names: seq<string>, before: Standing, did: seq<Deed>, selected: Option<nat>, after: Standing) {
    match selected
    case Some(i) => i < |names| && SelectionEnds(s, names, before, i, did, Taken, after)
    case None =>
      || SelectedTo(s, names, before, |names|, did, after)
      || exists i {:trigger SelectionEnds(s, names, before, i, did, Stopped, after)} ::
           0 <= i < |names| && SelectionEnds(s, names, before, i, did, Stopped, after)
  }

  /** The active provider was kept, or its circuit was open, or there was none. */
  ghost predicate Selected(s: Settings, names: seq<string>, active: Option<nat>, before: Standing, did: seq<Deed>,
                           selected: Option<nat>, after: Standing)
    requires active.Some? ==> active.value < |names|
  {
    if active.None? then Scanned(s, names, before, did, selected, after)
    else
      && did != [] && did[0].Asked? && did[0].candidate == active.value
      && exists t {:trigger CircuitOpen(s, before.history, names[active.value], t)} ::
           && t >= before.clock && (did[0].open <==> CircuitOpen(s, before.history, names[active.value], t))
           && if did[0].open then Scanned(s, names, before.(clock := t), did[1..], selected, after)
              else |did| == 1 && selected == active && after == before.(clock := t)
  }

  /** The selected provider's turn. It fails if it never succeeds, or if the listener throws on its recovery. */
  ghost predicate PrimaryTried(s: Settings, names: seq<string>, before: Standing, primary: nat, runs: seq<Deed>, verdict: Verdict,
                               after: Standing)
    requires primary < |names|
  {
    var name := names[primary];
    && Attempted(runs, primary, s.retryAttempts) && after.clock >= before.clock && after.throws >= before.throws
    && (verdict.Passed? ==> s.failOpen) && (verdict.Stopped? ==> after.throws > before.throws || !s.failOpen)
    && if verdict.Taken? then runs[|runs| - 1].outcome.Done? && after.history == before.history + [Cleared(name)]
       else if runs[|runs| - 1].outcome.Threw? then after.history == before.history + [Failed(name, after.clock)]
       else
         && FailuresSinceClear(before.history, name) > 0 && after.throws > before.throws
         && after.history == before.history + [Cleared(name), Failed(name, after.clock)]
  }

  /** Another candidate's turn; one with the primary's name has none. */
  ghost predicate Turned(s: Settings, names: seq<string>, before: Standing, primary: nat, c: nat, did: seq<Deed>, verdict: Verdict,
                         after: Standing)
    requires primary < |names| && c < |names|
  {
    if names[c] == names[primary] then did == [] && verdict.Passed? && after == before
    else
      && after.throws >= before.throws
      && exists happened {:trigger Tried(s, did, c, names[c], happened, after.clock, ListenerThrew(before, after), verdict)} ::
        && after.history == before.history + happened
        && Tried(s, did, c, names[c], happened, after.clock, ListenerThrew(before, after), verdict)
        && AskedBetween(s, before.history, names[c], before.clock, after.clock, did[0].open)
  }

  /** The candidates before the i-th had their turn and were not taken. */
  ghost predicate TurnedTo(s: Settings, names: seq<string>, before: Standing, primary: nat, i: nat, did: seq<Deed>, after: Standing)
    requires primary < |names| && i <= |names|
  {
    if i == 0 then did == [] && after == before
    else
      exists first: seq<Deed>, mid: Standing, last: seq<Deed>
        {:trigger first + last, Turned(s, names, mid, primary, i - 1, last, Passed, after)} ::
        && TurnedTo(s, names, before, primary, i - 1, first, mid)
        && Turned(s, names, mid, primary, i - 1, last, Passed, after)
        && did == first + last
  }

  ghost predicate TurnsEnd(s: Settings, names: seq<string>, before: Standing, primary: nat, i: nat, did: seq<Deed>, verdict: Verdict,
                           after: Standing)
    requires primary < |names| && i < |names|
  {
    exists first: seq<Deed>, mid: Standing, last: seq<Deed> ::
      && TurnedTo(s, names, before, primary, i, first, mid)
      && Turned(s, names, mid, primary, i, last, verdict, after)
      && did == first + last
  }

  ghost predicate OthersTried(s: Settings, names: seq<string>, before: Standing, primary: nat, did: seq<Deed>, provider: Option<nat>,
                              after: Standing)
    requires primary < |names|
  {
    match provider
    case Some(i) => i < |names| && TurnsEnd(s, names, before, primary, i, did, Taken, after)
    case None =>
      || TurnedTo(s, names, before, primary, |names|, did, after)
      || exists i {:trigger TurnsEnd(s, names, before, primary, i, did, Stopped, after)} ::
           0 <= i < |names| && TurnsEnd(s, names, before, primary, i, did, Stopped, after)
  }

  /** What follows the selection of a provider. */
  ghost predicate Executed(s: Settings, names: seq<string>, before: Standing, primary: nat, did: seq<Deed>, provider: Option<nat>,
                           after: Standing)
    requires primary < |names|
  {
    exists runs: seq<Deed>, verdict: Verdict, mid: Standing, rest: seq<Deed> ::
      && PrimaryTried(s, names, before, primary, runs, verdict, mid) && did == runs + rest
      && match verdict
         case Taken => rest == [] && provider == Some(primary) && after == mid
         case Stopped => rest == [] && provider.None? && after == mid
         case Passed => OthersTried(s, names, mid, primary, rest, provider, after)
  }

  /** What follows the selection of a provider or of none. */
  ghost predicate Continued(s: Settings, names: seq<string>, before: Standing, selected: Option<nat>, did: seq<Deed>,
                            provider: Option<nat>, after: Standing)
  {
    match selected
    case None => did == [] && provider.None? && after == before
    case Some(p) => p < |names| && Executed(s, names, before, p, did, provider, after)
  }

  /** A whole call, as far as it concerns circuits, checks, runs and failures. */
  ghost predicate Called(s: Settings, names: seq<string>, active: Option<nat>, before: Standing, did: seq<Deed>,
                         provider: Option<nat>, after: Standing)
    requires active.Some? ==> active.value < |names|
  {
    exists asked: seq<Deed>, selected: Option<nat>, mid: Standing, rest: seq<Deed> ::
      && Selected(s, names, active, before, asked, selected, mid) && did == asked + rest
      && Continued(s, names, mid, selected, rest, provider, after)
  }

  lemma SelectingOfParts(s: Settings, names: seq<string>, before: Standing, c: nat, did: seq<Deed>, happened: seq<Happening>,
                         threw: bool, verdict: Verdict, after: Standing)
    requires c < |names| && after.history == before.history + happened && after.throws >= before.throws
    requires threw == ListenerThrew(before, after) && Considered(s, did, c, names[c], happened, after.clock, threw, verdict)
    requires AskedBetween(s, before.history, names[c], before.clock, after.clock, did[0].open)
    ensures Selecting(s, names, before, c, did, verdict, after)
  {
    assert Considered(s, did, c, names[c], happened, after.clock, ListenerThrew(before, after), verdict);
  }

  lemma TurnedOfParts(s: Settings, names: seq<string>, before: Standing, primary: nat, c: nat, did: seq<Deed>,
                      happened: seq<Happening>, threw: bool, verdict: Verdict, after: Standing)
    requires primary < |names| && c < |names| && names[c] != names[primary]
    requires after.history == before.history + happened && after.throws >= before.throws
    requires threw == ListenerThrew(before, after) && Tried(s, did, c, names[c], happened, after.clock, threw, verdict)
    requires AskedBetween(s, before.history, names[c], before.clock, after.clock, did[0].open)
    ensures Turned(s, names, before, primary, c, did, verdict, after)
  {
    assert Tried(s, did, c, names[c], happened, after.clock, ListenerThrew(before, after), verdict);
  }

  lemma Regroup<T>(a: seq<T>, b: seq<T>, c: seq<T>)
    ensures a + b + c == a + (b + c)
  {
  }

  lemma SelectionGoesOn(s: Settings, names: seq<string>, before: Standing, i: nat, first: seq<Deed>, mid: Standing,
                        last: seq<Deed>, verdict: Verdict, after: Standing)
    requires i < |names| && SelectedTo(s, names, before, i, first, mid) && Selecting(s, names, mid, i, last, verdict, after)
    ensures SelectionEnds(s, names, before, i, first + last, verdict, after)
    ensures verdict.Passed? ==> SelectedTo(s, names, before, i + 1, first + last, after)
  {
  }

  lemma TurnsGoOn(s: Settings, names: seq<string>, before: Standing, primary: nat, i: nat, first: seq<Deed>, mid: Standing,
                  last: seq<Deed>, verdict: Verdict, after: Standing)
    requires primary < |names| && i < |names|
    requires TurnedTo(s, names, before, primary, i, first, mid) && Turned(s, names, mid, primary, i, last, verdict, after)
    ensures TurnsEnd(s, names, before, primary, i, first + last, verdict, after)
    ensures verdict.Passed? ==> TurnedTo(s, names, before, primary, i + 1, first + last, after)
  {
  }

  lemma CallOfParts(s: Settings, names: seq<string>, active: Option<nat>, before: Standing, asked: seq<Deed>, selected: Option<nat>,
                    mid: Standing, rest: seq<Deed>, provider: Option<nat>, after: Standing)
    requires (active.Some? ==> active.value < |names|) && Selected(s, names, active, before, asked, selected, mid)
    requires Continued(s, names, mid, selected, rest, provider, after)
    ensures Called(s, names, active, before, asked + rest, provider, after)
  {
  }

  // ---------------------------------------------------------------- how calls end

  lemma SelectingRunsNothing(s: Settings, names: seq<string>, before: Standing, c: nat, did: seq<Deed>, verdict: Verdict, after: Standing)
    requires c < |names| && Selecting(s, names, before, c, did, verdict, after)
    ensures NothingRan(did)
    ensures verdict.Passed? && after.throws == before.throws ==> TurnedDown(did, c)
    ensures verdict.Taken? ==> Asked(c, false) in did && (s.healthCheckOnInit ==> Checked(c, Healthy) in did)
    ensures verdict.Stopped? ==> after.throws > before.throws
  {
    var happened :| Considered(s, did, c, names[c], happened, after.clock, ListenerThrew(before, after), verdict);
    if verdict.Passed? && after.throws == before.throws {
      PassedIsTurnedDown(s, did, c, names[c], happened, after.clock, verdict);
    }
    assert did[0] in did;
    if |did| > 1 {
      assert did[1] in did;
    }
  }

  /** Nothing runs in the selection, and unless a listener threw all that were passed over were turned down. */
  lemma {:induction false} PassedOver(s: Settings, names: seq<string>, before: Standing, i: nat, did: seq<Deed>, after: Standing)
    requires i <= |names| && SelectedTo(s, names, before, i, did, after)
    ensures NothingRan(did) && after.throws >= before.throws
    ensures after.throws == before.throws ==> forall j :: 0 <= j < i ==> TurnedDown(did, j)
  {
    if i > 0 {
      var first: seq<Deed>, mid: Standing, last: seq<Deed> :|
        && SelectedTo(s, names, before, i - 1, first, mid)
        && Selecting(s, names, mid, i - 1, last, Passed, after)
        && did == first + last;
      PassedOver(s, names, before, i - 1, first, mid);
      SelectingRunsNothing(s, names, mid, i - 1, last, Passed, after);
      forall j | 0 <= j < i && after.throws == before.throws
        ensures TurnedDown(did, j)
      {
        TurnedDownStill(first, last, j);
      }
    }
  }

  lemma SelectionEndChooses(s: Settings, names: seq<string>, before: Standing, i: nat, did: seq<Deed>, verdict: Verdict, after: Standing)
    requires i < |names| && SelectionEnds(s, names, before, i, did, verdict, after)
    ensures NothingRan(did) && after.throws >= before.throws && (verdict.Stopped? ==> after.throws > before.throws)
    ensures verdict.Taken? && after.throws == before.throws ==> Chosen(s, |names|, did, Some(i))
  {
    var first: seq<Deed>, mid: Standing, last: seq<Deed> :|
      && SelectedTo(s, names, before, i, first, mid)
      && Selecting(s, names, mid, i, last, verdict, after)
      && did == first + last;
    PassedOver(s, names, before, i, first, mid);
    SelectingRunsNothing(s, names, mid, i, last, verdict, after);
    forall j | 0 <= j < i && after.throws == before.throws
      ensures TurnedDown(did, j)
    {
      TurnedDownStill(first, last, j);
    }
  }

  lemma ScanChooses(s: Settings, names: seq<string>, before: Standing, did: seq<Deed>, selected: Option<nat>, after: Standing)
    requires Scanned(s, names, before, did, selected, after)
    ensures NothingRan(did) && after.throws >= before.throws
    ensures after.throws == before.throws ==> Chosen(s, |names|, did, selected)
  {
    match selected
    case Some(i) => SelectionEndChooses(s, names, before, i, did, Taken, after);
    case None =>
      if SelectedTo(s, names, before, |names|, did, after) {
        PassedOver(s, names, before, |names|, did, after);
      } else {
        var i :| 0 <= i < |names| && SelectionEnds(s, names, before, i, did, Stopped, after);
        SelectionEndChooses(s, names, before, i, did, Stopped, after);
      }
  }

  /** The active provider's circuit was found closed. */
  ghost predicate Kept(active: Option<nat>, did: seq<Deed>) {
    active.Some? && did != [] && did[0].Asked? && !did[0].open
  }

  /** The active provider is kept if its circuit is closed; otherwise the first that is not turned down is chosen. */
  lemma SelectionChooses(s: Settings, names: seq<string>, active: Option<nat>, before: Standing, did: seq<Deed>,
                         selected: Option<nat>, after: Standing)
    requires (active.Some? ==> active.value < |names|) && Selected(s, names, active, before, did, selected, after)
    ensures NothingRan(did) && after.throws >= before.throws
    ensures Kept(active, did) ==> selected == active && after == before.(clock := after.clock)
    ensures !Kept(active, did) && after.throws == before.throws ==> Chosen(s, |names|, did, selected)
  {
    if active.None? {
      ScanChooses(s, names, before, did, selected, after);
    } else {
      var t :|
        && t >= before.clock && (did[0].open <==> CircuitOpen(s, before.history, names[active.value], t))
        && if did[0].open then Scanned(s, names, before.(clock := t), did[1..], selected, after)
           else |did| == 1 && selected == active && after == before.(clock := t);
      if did[0].open {
        var rest := did[1..];
        ScanChooses(s, names, before.(clock := t), rest, selected, after);
        assert did == [did[0]] + rest;
        if after.throws == before.throws {
          StillChosen(s, |names|, [did[0]], rest, selected);
        }
      }
    }
  }

  lemma StillChosen(s: Settings, count: nat, first: seq<Deed>, did: seq<Deed>, selected: Option<nat>)
    requires Chosen(s, count, did, selected)
    ensures Chosen(s, count, first + did, selected)
  {
    forall j | 0 <= j < (if selected.Some? then selected.value else count)
      ensures TurnedDown(first + did, j)
    {
      TurnedDownStill(first, did, j);
    }
  }

  /** What holds when the candidates before the i-th have had their turn and none was taken. */
  ghost predicate NoneTakenYet(s: Settings, names: seq<string>, history: seq<Happening>, did: seq<Deed>, primary: nat, i: nat, quiet: bool)
    requires primary < |names| && i <= |names|
  {
    && RunsUpTo(did, primary, i, s.retryAttempts) && Charged(names, history, did)
    && (quiet ==> NothingWorked(did) && Ran(primary, Threw) in did && forall j :: 0 <= j < i ==> Refused(names, did, j))
  }

  /** How a whole call may end; `quiet` if no listener threw. */
  ghost predicate Ended(s: Settings, names: seq<string>, history: seq<Happening>, did: seq<Deed>, provider: Option<nat>, quiet: bool) {
    && (forall i: nat {:trigger Runs(did, i)} :: Runs(did, i) <= s.retryAttempts)
    && match provider
       case Some(i) =>
         && i < |names| && FailuresSinceClear(history, names[i]) == 0
         && did != [] && did[|did| - 1] == Ran(i, Done)
         && (quiet ==> NothingWorked(did[..|did| - 1]))
       case None =>
         && Charged(names, history, did)
         && (quiet ==> NothingWorked(did))
         && (quiet && s.failOpen ==> forall j :: 0 <= j < |names| ==> Refused(names, did, j))
  }

  /** One more turn in vain. */
  lemma TurnInVain(s: Settings, names: seq<string>, before: Standing, pre: seq<Deed>, primary: nat, i: nat, turn: seq<Deed>,
                   verdict: Verdict, after: Standing, quiet: bool)
    requires primary < |names| && i < |names| && NoneTakenYet(s, names, before.history, pre, primary, i, quiet)
    requires Turned(s, names, before, primary, i, turn, verdict, after) && !verdict.Taken?
    ensures after.throws >= before.throws && (verdict.Stopped? ==> after.throws > before.throws)
    ensures NoneTakenYet(s, names, after.history, pre + turn, primary, i + 1, quiet && after.throws == before.throws)
  {
    if names[i] == names[primary] {
      assert pre + turn == pre;
    } else {
      var threw := ListenerThrew(before, after);
      var happened :| Tried(s, turn, i, names[i], happened, after.clock, threw, verdict) && after.history == before.history + happened;
      RunsOneMore(s, pre, turn, primary, i, names[i], happened, after.clock, threw, verdict);
      StillCharged(s, names, before.history, pre, turn, i, happened, after.clock, threw, verdict);
      TriedInVain(s, turn, i, names[i], happened, after.clock, threw, verdict);
      forall j | 0 <= j <= i && quiet && !threw
        ensures Refused(names, pre + turn, j)
      {
        RefusedStill(names, pre, turn, j);
      }
    }
  }

  /** A turn that is taken. */
  lemma TurnTaken(s: Settings, names: seq<string>, before: Standing, pre: seq<Deed>, primary: nat, i: nat, turn: seq<Deed>,
                  after: Standing, quiet: bool)
    requires primary < |names| && i < |names| && NoneTakenYet(s, names, before.history, pre, primary, i, quiet)
    requires Turned(s, names, before, primary, i, turn, Taken, after)
    ensures after.throws >= before.throws
    ensures Ended(s, names, after.history, pre + turn, Some(i), quiet && after.throws == before.throws)
  {
    var threw := ListenerThrew(before, after);
    var happened :| Tried(s, turn, i, names[i], happened, after.clock, threw, Taken) && after.history == before.history + happened;
    RunsOneMore(s, pre, turn, primary, i, names[i], happened, after.clock, threw, Taken);
    TakenWorked(s, turn, i, names[i], happened, after.clock, threw, Taken);
    assert (pre + turn)[..|pre + turn| - 1] == pre + turn[..|turn| - 1];
    assert happened == [Cleared(names[i])];
    HistoryNext(before.history, Cleared(names[i]), names[i]);
  }

  lemma {:induction false} TurnsInVain(s: Settings, names: seq<string>, before: Standing, pre: seq<Deed>, primary: nat, i: nat,
                                       did: seq<Deed>, after: Standing, quiet: bool)
    requires primary < |names| && i <= |names| && NoneTakenYet(s, names, before.history, pre, primary, 0, quiet)
    requires TurnedTo(s, names, before, primary, i, did, after)
    ensures after.throws >= before.throws
    ensures NoneTakenYet(s, names, after.history, pre + did, primary, i, quiet && after.throws == before.throws)
  {
    if i == 0 {
      assert pre + did == pre;
    } else {
      var first: seq<Deed>, mid: Standing, last: seq<Deed> :|
        && TurnedTo(s, names, before, primary, i - 1, first, mid)
        && Turned(s, names, mid, primary, i - 1, last, Passed, after)
        && did == first + last;
      TurnsInVain(s, names, before, pre, primary, i - 1, first, mid, quiet);
      TurnInVain(s, names, mid, pre + first, primary, i - 1, last, Passed, after, quiet && mid.throws == before.throws);
      assert pre + did == pre + first + last;
    }
  }

  lemma TurnsEndWell(s: Settings, names: seq<string>, before: Standing, pre: seq<Deed>, primary: nat, i: nat, did: seq<Deed>,
                     verdict: Verdict, after: Standing, quiet: bool)
    requires primary < |names| && i < |names| && NoneTakenYet(s, names, before.history, pre, primary, 0, quiet)
    requires TurnsEnd(s, names, before, primary, i, did, verdict, after) && !verdict.Passed?
    ensures after.throws >= before.throws
    ensures Ended(s, names, after.history, pre + did, if verdict.Taken? then Some(i) else None, quiet && after.throws == before.throws)
  {
    var first: seq<Deed>, mid: Standing, last: seq<Deed> :|
      && TurnedTo(s, names, before, primary, i, first, mid)
      && Turned(s, names, mid, primary, i, last, verdict, after)
      && did == first + last;
    TurnsInVain(s, names, before, pre, primary, i, first, mid, quiet);
    assert pre + did == pre + first + last;
    if verdict.Taken? {
      TurnTaken(s, names, mid, pre + first, primary, i, last, after, quiet && mid.throws == before.throws);
    } else {
      TurnInVain(s, names, mid, pre + first, primary, i, last, verdict, after, quiet && mid.throws == before.throws);
    }
  }

  lemma OthersEnd(s: Settings, names: seq<string>, before: Standing, pre: seq<Deed>, primary: nat, did: seq<Deed>,
                  provider: Option<nat>, after: Standing, quiet: bool)
    requires primary < |names| && NoneTakenYet(s, names, before.history, pre, primary, 0, quiet)
    requires OthersTried(s, names, before, primary, did, provider, after)
    ensures after.throws >= before.throws
    ensures Ended(s, names, after.history, pre + did, provider, quiet && after.throws == before.throws)
  {
    match provider
    case Some(i) => TurnsEndWell(s, names, before, pre, primary, i, did, Taken, after, quiet);
    case None =>
      if TurnedTo(s, names, before, primary, |names|, did, after) {
        TurnsInVain(s, names, before, pre, primary, |names|, did, after, quiet);
      } else {
        var i :| 0 <= i < |names| && TurnsEnd(s, names, before, primary, i, did, Stopped, after);
        TurnsEndWell(s, names, before, pre, primary, i, did, Stopped, after, quiet);
      }
  }

  /** What the selected provider's turn leaves, if it is not taken. */
  lemma PrimaryInVain(s: Settings, names: seq<string>, before: Standing, asked: seq<Deed>, primary: nat, runs: seq<Deed>,
                      verdict: Verdict, after: Standing)
    requires primary < |names| && NothingRan(asked) && PrimaryTried(s, names, before, primary, runs, verdict, after) && !verdict.Taken?
    ensures NoneTakenYet(s, names, after.history, asked + runs, primary, 0, after.throws == before.throws)
  {
    var name := names[primary];
    if runs[|runs| - 1].outcome.Threw? {
      HistoryNext(before.history, Failed(name, after.clock), name);
    } else {
      HistoryNext(before.history + [Cleared(name)], Failed(name, after.clock), name);
      assert after.history == before.history + [Cleared(name)] + [Failed(name, after.clock)];
    }
    PrimaryRuns(asked, runs, primary, s.retryAttempts);
    AttemptsCharged(names, after.history, asked, runs, primary, s.retryAttempts);
  }

  lemma PrimaryTaken(s: Settings, names: seq<string>, before: Standing, asked: seq<Deed>, primary: nat, runs: seq<Deed>, after: Standing)
    requires primary < |names| && NothingRan(asked) && PrimaryTried(s, names, before, primary, runs, Taken, after)
    ensures Ended(s, names, after.history, asked + runs, Some(primary), true)
  {
    HistoryNext(before.history, Cleared(names[primary]), names[primary]);
    PrimaryRuns(asked, runs, primary, s.retryAttempts);
    AttemptsInVain(asked, runs, primary, s.retryAttempts);
    assert (asked + runs)[|asked + runs| - 1] == runs[|runs| - 1];
  }

  lemma ExecutionEnds(s: Settings, names: seq<string>, before: Standing, asked: seq<Deed>, primary: nat, did: seq<Deed>,
                      provider: Option<nat>, after: Standing)
    requires primary < |names| && NothingRan(asked) && Executed(s, names, before, primary, did, provider, after)
    ensures after.throws >= before.throws
    ensures Ended(s, names, after.history, asked + did, provider, after.throws == before.throws)
    ensures !s.failOpen ==> forall d :: d in did && d.Ran? ==> d.candidate == primary
  {
    var runs: seq<Deed>, verdict: Verdict, mid: Standing, rest: seq<Deed> :|
      && PrimaryTried(s, names, before, primary, runs, verdict, mid) && did == runs + rest
      && match verdict
         case Taken => rest == [] && provider == Some(primary) && after == mid
         case Stopped => rest == [] && provider.None? && after == mid
         case Passed => OthersTried(s, names, mid, primary, rest, provider, after);
    assert asked + did == asked + runs + rest;
    if verdict.Taken? {
      PrimaryTaken(s, names, before, asked, primary, runs, mid);
      assert asked + did == asked + runs;
    } else {
      PrimaryInVain(s, names, before, asked, primary, runs, verdict, mid);
      if verdict.Passed? {
        OthersEnd(s, names, mid, asked + runs, primary, rest, provider, after, mid.throws == before.throws);
      } else {
        assert asked + did == asked + runs;
      }
    }
  }

  lemma NobodySelected(s: Settings, names: seq<string>, history: seq<Happening>, asked: seq<Deed>, quiet: bool)
    requires NothingRan(asked) && (quiet ==> Chosen(s, |names|, asked, None))
    ensures Ended(s, names, history, asked, None, quiet)
  {
    forall i: nat
      ensures Runs(asked, i) == 0
    {
      RunsOfNone(asked, i);
    }
  }

  /**
   * How every call ends. No provider runs the operation more often than allowed. The provider reported ran last, and
   * succeeded, and has no failures. If none is reported, all that ran are charged with failures. And unless a listener
   * threw, nothing else succeeded, and a call that goes on after failures has left no candidate out.
   */
  lemma CallEnds(s: Settings, names: seq<string>, active: Option<nat>, before: Standing, did: seq<Deed>,
                 provider: Option<nat>, after: Standing)
    requires (active.Some? ==> active.value < |names|) && Called(s, names, active, before, did, provider, after)
    ensures after.throws >= before.throws
    ensures Ended(s, names, after.history, did, provider, after.throws == before.throws)
    ensures !s.failOpen ==> forall d, e :: d in did && e in did && d.Ran? && e.Ran? ==> d.candidate == e.candidate
  {
    var asked: seq<Deed>, selected: Option<nat>, mid: Standing, rest: seq<Deed> :|
      && Selected(s, names, active, before, asked, selected, mid) && did == asked + rest
      && Continued(s, names, mid, selected, rest, provider, after);
    SelectionChooses(s, names, active, before, asked, selected, mid);
    if selected.None? {
      assert did == asked;
      NobodySelected(s, names, after.history, asked, after.throws == before.throws);
    } else {
      ExecutionEnds(s, names, mid, asked, selected.value, rest, provider, after);
    }
  }

  // ---------------------------------------------------------------- operations that succeed twice

  /** How often the operation succeeded. */
  function Successes(did: seq<Deed>): nat {
    if did == [] then 0
    else
      var last := did[|did| - 1];
      Successes(did[..|did| - 1]) + (if last.Ran? && last.outcome.Done? then 1 else 0)
  }

  /** The candidate that a call looks at first. */
  function FirstAsked(active: Option<nat>): nat {
    if active.Some? then active.value else 0
  }

  /**
   * What it takes for a call to run a successful operation again: the call goes on after a failure, the first candidate it
   * looks at has failures that no health check clears before it is selected, and there is a candidate of another name.
   */
  predicate MayRepeat(s: Settings, names: seq<string>, active: Option<nat>, history: seq<Happening>)
    requires names != [] && (active.Some? ==> active.value < |names|)
  {
    var first := names[FirstAsked(active)];
    && s.failOpen && (active.Some? || !s.healthCheckOnInit)
    && FailuresSinceClear(history, first) > 0
    && exists c :: 0 <= c < |names| && names[c] != first
  }

  lemma {:induction false} SuccessesAdd(before: seq<Deed>, did: seq<Deed>)
    ensures Successes(before + did) == Successes(before) + Successes(did)
  {
    var all := before + did;
    if did == [] {
      assert all == before;
    } else {
      SuccessesAdd(before, did[..|did| - 1]);
      assert all[..|all| - 1] == before + did[..|did| - 1];
    }
  }

  lemma {:induction false} NoSuccesses(did: seq<Deed>)
    requires NothingWorked(did)
    ensures Successes(did) == 0
  {
    if did != [] {
      NoSuccesses(did[..|did| - 1]);
    }
  }

  lemma OneAttempt(runs: seq<Deed>, candidate: nat, attempts: nat)
    requires Attempted(runs, candidate, attempts)
    ensures Successes(runs) == if runs[|runs| - 1].outcome.Done? then 1 else 0
  {
    NoSuccesses(runs[..|runs| - 1]);
  }

  lemma OneTurn(s: Settings, names: seq<string>, before: Standing, primary: nat, c: nat, did: seq<Deed>, verdict: Verdict, after: Standing)
    requires primary < |names| && c < |names| && Turned(s, names, before, primary, c, did, verdict, after)
    ensures Successes(did) == if verdict.Taken? then 1 else 0
    ensures verdict.Taken? ==> names[c] != names[primary]
  {
    if names[c] != names[primary] {
      var threw := ListenerThrew(before, after);
      var happened :| Tried(s, did, c, names[c], happened, after.clock, threw, verdict);
      if verdict.Taken? {
        TakenWorked(s, did, c, names[c], happened, after.clock, threw, verdict);
        NoSuccesses(did[..|did| - 1]);
      } else {
        TriedInVain(s, did, c, names[c], happened, after.clock, threw, verdict);
        NoSuccesses(did);
      }
    }
  }

  lemma {:induction false} NoTurnTaken(s: Settings, names: seq<string>, before: Standing, primary: nat, i: nat, did: seq<Deed>, after: Standing)
    requires primary < |names| && i <= |names| && TurnedTo(s, names, before, primary, i, did, after)
    ensures Successes(did) == 0
  {
    if i > 0 {
      var first: seq<Deed>, mid: Standing, last: seq<Deed> :|
        && TurnedTo(s, names, before, primary, i - 1, first, mid)
        && Turned(s, names, mid, primary, i - 1, last, Passed, after)
        && did == first + last;
      NoTurnTaken(s, names, before, primary, i - 1, first, mid);
      OneTurn(s, names, mid, primary, i - 1, last, Passed, after);
      SuccessesAdd(first, last);
    }
  }

  lemma TurnsEndOnce(s: Settings, names: seq<string>, before: Standing, primary: nat, i: nat, did: seq<Deed>, verdict: Verdict, after: Standing)
    requires primary < |names| && i < |names| && TurnsEnd(s, names, before, primary, i, did, verdict, after)
    ensures Successes(did) == if verdict.Taken? then 1 else 0
    ensures verdict.Taken? ==> names[i] != names[primary]
  {
    var first: seq<Deed>, mid: Standing, last: seq<Deed> :|
      && TurnedTo(s, names, before, primary, i, first, mid)
      && Turned(s, names, mid, primary, i, last, verdict, after)
      && did == first + last;
    NoTurnTaken(s, names, before, primary, i, first, mid);
    OneTurn(s, names, mid, primary, i, last, verdict, after);
    SuccessesAdd(first, last);
  }

  /** Among the other candidates at most one succeeds, once, and it is the one reported. */
  lemma OthersSucceedOnce(s: Settings, names: seq<string>, before: Standing, primary: nat, did: seq<Deed>, provider: Option<nat>, after: Standing)
    requires primary < |names| && OthersTried(s, names, before, primary, did, provider, after)
    ensures Successes(did) == if provider.Some? then 1 else 0
    ensures provider.Some? ==> provider.value < |names| && names[provider.value] != names[primary]
  {
    match provider
    case Some(i) => TurnsEndOnce(s, names, before, primary, i, did, Taken, after);
    case None =>
      if TurnedTo(s, names, before, primary, |names|, did, after) {
        NoTurnTaken(s, names, before, primary, |names|, did, after);
      } else {
        var i :| 0 <= i < |names| && TurnsEnd(s, names, before, primary, i, did, Stopped, after);
        TurnsEndOnce(s, names, before, primary, i, did, Stopped, after);
      }
  }

  /** Once a provider is selected, a second success needs failures of that provider and a candidate of another name. */
  lemma SecondSuccess(s: Settings, names: seq<string>, before: Standing, primary: nat, did: seq<Deed>, provider: Option<nat>, after: Standing)
    requires primary < |names| && Executed(s, names, before, primary, did, provider, after)
    ensures Successes(did) <= 2
    ensures Successes(did) == 2 ==>
      && s.failOpen && FailuresSinceClear(before.history, names[primary]) > 0
      && exists c :: 0 <= c < |names| && names[c] != names[primary]
  {
    var runs: seq<Deed>, verdict: Verdict, mid: Standing, rest: seq<Deed> :|
      && PrimaryTried(s, names, before, primary, runs, verdict, mid) && did == runs + rest
      && match verdict
         case Taken => rest == [] && provider == Some(primary) && after == mid
         case Stopped => rest == [] && provider.None? && after == mid
         case Passed => OthersTried(s, names, mid, primary, rest, provider, after);
    OneAttempt(runs, primary, s.retryAttempts);
    SuccessesAdd(runs, rest);
    if verdict.Passed? {
      OthersSucceedOnce(s, names, mid, primary, rest, provider, after);
    }
  }

  lemma SelectingTells(s: Settings, names: seq<string>, before: Standing, c: nat, did: seq<Deed>, verdict: Verdict, after: Standing)
    requires Bounded(s) && c < |names| && Selecting(s, names, before, c, did, verdict, after)
    ensures Successes(did) == 0
    ensures !s.healthCheckOnInit ==> after.history == before.history
    ensures !s.healthCheckOnInit && verdict.Passed? ==> FailuresSinceClear(before.history, names[c]) > 0
    ensures s.healthCheckOnInit && verdict.Taken? ==> FailuresSinceClear(after.history, names[c]) == 0
  {
    var happened :|
      && Considered(s, did, c, names[c], happened, after.clock, ListenerThrew(before, after), verdict)
      && after.history == before.history + happened;
    if s.healthCheckOnInit && verdict.Taken? {
      HistoryNext(before.history, Cleared(names[c]), names[c]);
    }
    SelectingRunsNothing(s, names, before, c, did, verdict, after);
    NoSuccesses(did);
  }

  lemma {:induction false} PassingRunsNothing(s: Settings, names: seq<string>, before: Standing, i: nat, did: seq<Deed>, after: Standing)
    requires Bounded(s) && i <= |names| && SelectedTo(s, names, before, i, did, after)
    ensures Successes(did) == 0
    ensures !s.healthCheckOnInit ==> after.history == before.history
    ensures !s.healthCheckOnInit && i > 0 ==> FailuresSinceClear(before.history, names[0]) > 0
  {
    if i > 0 {
      var first: seq<Deed>, mid: Standing, last: seq<Deed> :|
        && SelectedTo(s, names, before, i - 1, first, mid)
        && Selecting(s, names, mid, i - 1, last, Passed, after)
        && did == first + last;
      PassingRunsNothing(s, names, before, i - 1, first, mid);
      SelectingTells(s, names, mid, i - 1, last, Passed, after);
      SuccessesAdd(first, last);
    }
  }

  lemma SelectionEndsClean(s: Settings, names: seq<string>, before: Standing, i: nat, did: seq<Deed>, verdict: Verdict, after: Standing)
    requires Bounded(s) && i < |names| && SelectionEnds(s, names, before, i, did, verdict, after)
    ensures Successes(did) == 0
    ensures verdict.Taken? && FailuresSinceClear(after.history, names[i]) > 0 ==>
      !s.healthCheckOnInit && FailuresSinceClear(before.history, names[0]) > 0
  {
    var first: seq<Deed>, mid: Standing, last: seq<Deed> :|
      && SelectedTo(s, names, before, i, first, mid)
      && Selecting(s, names, mid, i, last, verdict, after)
      && did == first + last;
    PassingRunsNothing(s, names, before, i, first, mid);
    SelectingTells(s, names, mid, i, last, verdict, after);
    SuccessesAdd(first, last);
  }

  lemma ScanIsClean(s: Settings, names: seq<string>, before: Standing, did: seq<Deed>, selected: Option<nat>, after: Standing)
    requires Bounded(s) && Scanned(s, names, before, did, selected, after)
    ensures Successes(did) == 0 && (selected.Some? ==> selected.value < |names|)
    ensures selected.Some? && FailuresSinceClear(after.history, names[selected.value]) > 0 ==>
      !s.healthCheckOnInit && FailuresSinceClear(before.history, names[0]) > 0
  {
    match selected
    case Some(i) => SelectionEndsClean(s, names, before, i, did, Taken, after);
    case None =>
      if SelectedTo(s, names, before, |names|, did, after) {
        PassingRunsNothing(s, names, before, |names|, did, after);
      } else {
        var i :| 0 <= i < |names| && SelectionEnds(s, names, before, i, did, Stopped, after);
        SelectionEndsClean(s, names, before, i, did, Stopped, after);
      }
  }

  /** A provider that still has failures when it is selected: the first one looked at had them before. */
  lemma SelectedWithFailures(s: Settings, names: seq<string>, active: Option<nat>, before: Standing, did: seq<Deed>,
                             selected: Option<nat>, after: Standing)
    requires Bounded(s) && (active.Some? ==> active.value < |names|) && Selected(s, names, active, before, did, selected, after)
    ensures Successes(did) == 0 && (selected.Some? ==> selected.value < |names|)
    ensures selected.Some? && FailuresSinceClear(after.history, names[selected.value]) > 0 ==>
      (active.Some? || !s.healthCheckOnInit) && FailuresSinceClear(before.history, names[FirstAsked(active)]) > 0
  {
    if active.None? {
      ScanIsClean(s, names, before, did, selected, after);
    } else {
      var t :|
        && t >= before.clock && (did[0].open <==> CircuitOpen(s, before.history, names[active.value], t))
        && if did[0].open then Scanned(s, names, before.(clock := t), did[1..], selected, after)
           else |did| == 1 && selected == active && after == before.(clock := t);
      if did[0].open {
        ScanIsClean(s, names, before.(clock := t), did[1..], selected, after);
        assert did == [did[0]] + did[1..];
        SuccessesAdd([did[0]], did[1..]);
      }
      NoSuccesses([did[0]]);
    }
  }

  /** No call succeeds more than twice, and twice only if it may. */
  lemma AtMostTwice(s: Settings, names: seq<string>, active: Option<nat>, before: Standing, did: seq<Deed>,
                    provider: Option<nat>, after: Standing)
    requires Bounded(s) && names != [] && (active.Some? ==> active.value < |names|)
    requires Called(s, names, active, before, did, provider, after)
    ensures Successes(did) <= if MayRepeat(s, names, active, before.history) then 2 else 1
  {
    var asked: seq<Deed>, selected: Option<nat>, mid: Standing, rest: seq<Deed> :|
      && Selected(s, names, active, before, asked, selected, mid) && did == asked + rest
      && Continued(s, names, mid, selected, rest, provider, after);
    SelectedWithFailures(s, names, active, before, asked, selected, mid);
    SuccessesAdd(asked, rest);
    if selected.Some? {
      SecondSuccess(s, names, mid, selected.value, rest, provider, after);
      if Successes(rest) == 2 {
        AnotherName(names, selected.value, FirstAsked(active));
      }
    }
  }

  lemma AnotherName(names: seq<string>, p: nat, q: nat)
    requires p < |names| && q < |names| && exists c :: 0 <= c < |names| && names[c] != names[p]
    ensures exists c :: 0 <= c < |names| && names[c] != names[q]
  {
    if names[p] == names[q] {
      var c :| 0 <= c < |names| && names[c] != names[p];
    }
  }

  /** All there is to say of a call, from its two parts. */
  lemma CallHolds(s: Settings, names: seq<string>, active: Option<nat>, before: Standing, asked: seq<Deed>, selected: Option<nat>,
                  mid: Standing, rest: seq<Deed>, did: seq<Deed>, provider: Option<nat>, after: Standing)
    requires Bounded(s) && names != [] && (active.Some? ==> active.value < |names|) && did == asked + rest
    requires Selected(s, names, active, before, asked, selected, mid)
    requires Continued(s, names, mid, selected, rest, provider, after)
    ensures Called(s, names, active, before, did, provider, after)
    ensures Ended(s, names, after.history, did, provider, after.throws == before.throws)
    ensures Successes(did) <= if MayRepeat(s, names, active, before.history) then 2 else 1
    ensures !s.failOpen ==> forall d, e :: d in did && e in did && d.Ran? && e.Ran? ==> d.candidate == e.candidate
  {
    CallOfParts(s, names, active, before, asked, selected, mid, rest, provider, after);
    CallEnds(s, names, active, before, did, provider, after);
    AtMostTwice(s, names, active, before, did, provider, after);
  }

  // ---------------------------------------------------------------- and how they do

  lemma ClosesInTime(s: Settings, history: seq<Happening>, provider: string, now: int) returns (t: int)
    ensures t >= now && !CircuitOpen(s, history, provider, t)
  {
    var last := LastFailure(history, provider);
    t := if last.Some? && last.value + s.failureCooldownMs > now then last.value + s.failureCooldownMs else now;
  }

  /** The first candidate looked at can always be selected as it is, once its circuit is closed. */
  lemma FirstCanBeSelected(s: Settings, names: seq<string>, active: Option<nat>, before: Standing)
    returns (t: int)
    requires names != [] && (active.Some? ==> active.value < |names|) && (active.Some? || !s.healthCheckOnInit)
    ensures t >= before.clock
    ensures Selected(s, names, active, before, [Asked(FirstAsked(active), false)], Some(FirstAsked(active)), before.(clock := t))
  {
    var first := FirstAsked(active);
    var did := [Asked(first, false)];
    t := ClosesInTime(s, before.history, names[first], before.clock);
    var after := before.(clock := t);
    if active.None? {
      assert before.history + [] == before.history;
      SelectingOfParts(s, names, before, 0, did, [], false, Taken, after);
      assert SelectedTo(s, names, before, 0, [], before) && [] + did == did;
      assert SelectionEnds(s, names, before, 0, did, Taken, after);
    }
  }

  lemma {:induction false} SameNamesAreSkipped(s: Settings, names: seq<string>, before: Standing, primary: nat, i: nat)
    requires primary < |names| && i <= |names| && forall j :: 0 <= j < i ==> names[j] == names[primary]
    ensures TurnedTo(s, names, before, primary, i, [], before)
  {
    if i > 0 {
      SameNamesAreSkipped(s, names, before, primary, i - 1);
      assert Turned(s, names, before, primary, i - 1, [], Passed, before);
      var none: seq<Deed> := [];
      assert none + none == none;
    }
  }

  /** The first candidate of another name can take over. */
  lemma OtherCanTakeOver(s: Settings, names: seq<string>, before: Standing, primary: nat)
    returns (c: nat, did: seq<Deed>, after: Standing)
    requires Bounded(s) && primary < |names| && exists c :: 0 <= c < |names| && names[c] != names[primary]
    ensures c < |names| && OthersTried(s, names, before, primary, did, Some(c), after) && Successes(did) == 1
  {
    c := 0;
    while names[c] == names[primary]
      invariant c < |names| && forall j :: 0 <= j < c ==> names[j] == names[primary]
      decreases |names| - c
    {
      c := c + 1;
      assert c < |names|;
    }
    SameNamesAreSkipped(s, names, before, primary, c);
    var t := ClosesInTime(s, before.history, names[c], before.clock);
    did := [Asked(c, false), Checked(c, Healthy), Ran(c, Done)];
    after := Standing(before.history + [Cleared(names[c])], t, before.throws);
    assert did[2..] == [Ran(c, Done)];
    TurnedOfParts(s, names, before, primary, c, did, [Cleared(names[c])], false, Taken, after);
    assert [] + did == did;
    assert TurnsEnd(s, names, before, primary, c, did, Taken, after);
    OthersSucceedOnce(s, names, before, primary, did, Some(c), after);
  }

  /** The primary succeeds, the listener throws on its recovery, and another candidate succeeds as well. */
  lemma CanSucceedTwice(s: Settings, names: seq<string>, before: Standing, primary: nat)
    returns (did: seq<Deed>, provider: Option<nat>, after: Standing)
    requires Bounded(s) && s.failOpen && primary < |names| && FailuresSinceClear(before.history, names[primary]) > 0
    requires exists c :: 0 <= c < |names| && names[c] != names[primary]
    ensures Executed(s, names, before, primary, did, provider, after) && Successes(did) == 2
  {
    var name := names[primary];
    var runs := [Ran(primary, Done)];
    var mid := Standing(before.history + [Cleared(name), Failed(name, before.clock)], before.clock, before.throws + 1);
    assert PrimaryTried(s, names, before, primary, runs, Passed, mid);
    var c, rest;
    c, rest, after := OtherCanTakeOver(s, names, mid, primary);
    provider, did := Some(c), runs + rest;
    OneAttempt(runs, primary, s.retryAttempts);
    SuccessesAdd(runs, rest);
  }

  lemma CanRepeat(s: Settings, names: seq<string>, active: Option<nat>, before: Standing)
    returns (did: seq<Deed>, provider: Option<nat>, after: Standing)
    requires Bounded(s) && names != [] && (active.Some? ==> active.value < |names|) && MayRepeat(s, names, active, before.history)
    ensures Called(s, names, active, before, did, provider, after) && Successes(did) == 2
  {
    var first := FirstAsked(active);
    var t := FirstCanBeSelected(s, names, active, before);
    var asked, mid := [Asked(first, false)], before.(clock := t);
    var rest;
    rest, provider, after := CanSucceedTwice(s, names, mid, first);
    did := asked + rest;
    NoSuccesses(asked);
    SuccessesAdd(asked, rest);
    CallOfParts(s, names, active, before, asked, Some(first), mid, rest, provider, after);
  }

  /** A call can run a successful operation again exactly if, before the call, it may. */
  lemma RepeatsExactly(s: Settings, names: seq<string>, active: Option<nat>, before: Standing)
    requires Bounded(s) && names != [] && (active.Some? ==> active.value < |names|)
    ensures (exists did, provider, after :: Called(s, names, active, before, did, provider, after) && Successes(did) > 1)
      <==> MayRepeat(s, names, active, before.history)
  {
    if MayRepeat(s, names, active, before.history) {
      var did, provider, after := CanRepeat(s, names, active, before);
    } else {
      forall did, provider, after | Called(s, names, active, before, did, provider, after)
        ensures Successes(did) <= 1
      {
        AtMostTwice(s, names, active, before, did, provider, after);
      }
    }
  }

  // ---------------------------------------------------------------- the orchestrator

  class ProviderOrchestrator {
    const candidates: seq<string>
    const settings: Settings
    var active: Option<nat>
    var failures: map<string, FailureState>
    var events: seq<Event>
    var eventCursor: nat
    var eventCount: nat
    var clock: int
    ghost var history: seq<Happening>
    ghost var emitted: seq<Event>
    ghost var deeds: seq<Deed>
    ghost var throws: nat

    ghost predicate Valid()
      reads this
    {
      && Bounded(settings) && candidates != [] && clock >= 0
      && (active.Some? ==> active.value < |candidates|)
      && CircuitsTell() && RingTells() && ActiveIsClean()
    }

    /** With health checks, the active provider has no failures. */
    ghost predicate ActiveIsClean()
      reads `active, `history
    {
      settings.healthCheckOnInit && active.Some? && active.value < |candidates| ==>
        FailuresSinceClear(history, candidates[active.value]) == 0
    }

    ghost function Here(): Standing
      reads `history, `clock, `throws
    {
      Standing(history, clock, throws)
    }

    ghost predicate CircuitsTell()
      reads `failures, `history
    {
      AllTell(settings, failures, history)
    }

    ghost predicate RingTells()
      reads `events, `eventCursor, `eventCount, `emitted
    {
      eventCount == |events| && RingHolds(settings.eventHistoryLimit, events, eventCursor, emitted)
    }

    constructor (candidates: seq<string>, settings: Settings, now: int)
      requires candidates != [] && Bounded(settings) && now >= 0
      ensures Valid() && fresh(this) && history == [] && emitted == [] && deeds == [] && throws == 0 && active.None?
      ensures this.candidates == candidates && this.settings == settings && clock == now
    {
      this.candidates, this.settings := candidates, settings;
      active, failures, events, eventCursor, eventCount, clock := None, map[], [], 0, 0, now;
      history, emitted, deeds, throws := [], [], [], 0;
    }

    // -------------------------------------------------------------- clock and events

    /** The clock never runs backwards. */
    method Now() returns (now: int)
      requires Valid()
      modifies `clock
      ensures Valid() && now == clock >= old(clock)
    {
      now :| now >= clock;
      clock := now;
    }

    /** Nothing but the ring changes. */
    method RecordEvent(event: Event)
      requires RingTells()
      modifies `events, `eventCursor, `eventCount, `emitted
      ensures RingTells() && emitted == old(emitted) + [event]
    {
      ghost var before := emitted;
      emitted := emitted + [event];
      if settings.eventHistoryLimit <= 0 {
        return;
      }
      RingNext(settings.eventHistoryLimit, events, eventCursor, before, event);
      events := Written(events, eventCursor, event);
      eventCursor := (eventCursor + 1) % settings.eventHistoryLimit;
      eventCount := if eventCount + 1 < settings.eventHistoryLimit then eventCount + 1 else settings.eventHistoryLimit;
    }

    /** The events of the ring, oldest first: the last of all events, as many as there are and the limit allows. */
    method GetRecentEvents() returns (ordered: seq<Event>)
      requires RingTells()
      ensures var n, limit := |emitted|, settings.eventHistoryLimit;
        ordered == emitted[if n < limit then 0 else n - limit..]
    {
      if settings.eventHistoryLimit <= 0 || eventCount == 0 {
        return [];
      }
      var start := if eventCount < settings.eventHistoryLimit then 0 else eventCursor;
      ordered := [];
      for index := 0 to eventCount
        invariant |ordered| == index
        invariant forall k :: 0 <= k < index ==> ordered[k] == emitted[|emitted| - eventCount + k]
      {
        var k := (start + index) % settings.eventHistoryLimit;
        WrapsOnce(start + index, settings.eventHistoryLimit);
        assert events[k] == RingAt(events, eventCursor, index);
        ordered := ordered + [events[k]];
      }
    }

    /** Records an event and tells the listener, which may throw. */
    method Emit(event: Event) returns (outcome: Outcome)
      requires Valid()
      modifies `events, `eventCursor, `eventCount, `emitted, `throws
      ensures Valid() && emitted == old(emitted) + [event]
      ensures throws == old(throws) + if outcome.Threw? then 1 else 0
    {
      RecordEvent(event);
      outcome := *;
      if outcome.Threw? {
        throws := throws + 1;
      }
    }

    ghost method Did(deed: Deed)
      modifies `deeds
      ensures deeds == old(deeds) + [deed]
    {
      deeds := deeds + [deed];
    }

    // -------------------------------------------------------------- circuits

    /** The circuit is open when the provider's stored retry time is still ahead. */
    method IsCircuitOpen(candidate: nat) returns (open: bool)
      requires Valid() && candidate < |candidates|
      modifies `clock, `deeds
      ensures Valid() && clock >= old(clock)
      ensures open <==> CircuitOpen(settings, history, candidates[candidate], clock)
      ensures deeds == old(deeds) + [Asked(candidate, open)]
    {
      var provider := candidates[candidate];
      assert Tells(settings, failures, history, provider);
      FailuresHaveATime(history, provider);
      open := false;
      if provider in failures {
        var now := Now();
        open := failures[provider].retryAfter > now;
      }
      Did(Asked(candidate, open));
    }

    /** What getProviderHealth reports of one provider. */
    method ProviderHealth(candidate: nat) returns (circuitOpen: bool, failureCount: nat, cooldownRemainingMs: int)
      requires Valid() && candidate < |candidates|
      modifies `clock
      ensures Valid() && clock >= old(clock)
      ensures circuitOpen <==> CircuitOpen(settings, history, candidates[candidate], clock)
      ensures failureCount == FailuresSinceClear(history, candidates[candidate])
      ensures circuitOpen ==> cooldownRemainingMs == LastFailure(history, candidates[candidate]).value + settings.failureCooldownMs - clock
    {
      var provider := candidates[candidate];
      assert Tells(settings, failures, history, provider);
      FailuresHaveATime(history, provider);
      var retryAfter := if provider in failures then failures[provider].retryAfter else 0;
      var now := Now();
      cooldownRemainingMs := if retryAfter - now > 0 then retryAfter - now else 0;
      circuitOpen := cooldownRemainingMs > 0;
      failureCount := if provider in failures then failures[provider].failures else 0;
    }

    ghost method Note(h: Happening)
      modifies `history
      ensures history == old(history) + [h]
    {
      history := history + [h];
    }

    /** Counts one more failure. The provider is no longer the active one, even if the listener throws. */
    method RecordFailure(candidate: nat, operation: Operation) returns (outcome: Outcome)
      requires Valid() && candidate < |candidates|
      modifies `clock, `failures, `history, `active, `events, `eventCursor, `eventCount, `emitted, `throws
      ensures Valid() && clock >= old(clock)
      ensures throws == old(throws) + if outcome.Threw? then 1 else 0
      ensures history == old(history) + [Failed(candidates[candidate], clock)]
      ensures active.Some? ==> active == old(active) && candidates[active.value] != candidates[candidate]
      ensures emitted == old(emitted) + [ProviderFailure(candidates[candidate], operation)]
    {
      var provider := candidates[candidate];
      assert Tells(settings, failures, history, provider);
      FailuresHaveATime(history, provider);
      var count := (if provider in failures then failures[provider].failures else 0) + 1;
      if count >= settings.circuitBreakerThreshold {
        var now := Now();
        failures := failures[provider := FailureState(count, now + settings.failureCooldownMs)];
      } else {
        failures := failures[provider := FailureState(count, 0)];
      }
      Note(Failed(provider, clock));
      TellsStill(settings, old(failures), old(history), Failed(provider, clock), failures);
      if active.Some? && candidates[active.value] == provider {
        active := None;
      }
      if active.Some? {
        HistoryNext(old(history), Failed(provider, clock), candidates[active.value]);
      }
      outcome := Emit(ProviderFailure(provider, operation));
    }

    /** Forgets the failures of a provider that works again. */
    method ClearFailure(candidate: nat) returns (outcome: Outcome)
      requires Valid() && candidate < |candidates|
      modifies `failures, `history, `events, `eventCursor, `eventCount, `emitted, `throws
      ensures throws == old(throws) + if outcome.Threw? then 1 else 0
      ensures outcome.Threw? ==> FailuresSinceClear(old(history), candidates[candidate]) > 0
      ensures Valid() && history == old(history) + [Cleared(candidates[candidate])]
      ensures FailuresSinceClear(history, candidates[candidate]) == 0
      ensures emitted == old(emitted) +
        if FailuresSinceClear(old(history), candidates[candidate]) > 0 then [ProviderRecovered(candidates[candidate])] else []
    {
      var provider := candidates[candidate];
      assert Tells(settings, failures, history, provider);
      var recovered := provider in failures;
      failures := failures - {provider};
      Note(Cleared(provider));
      TellsStill(settings, old(failures), old(history), Cleared(provider), failures);
      HistoryNext(old(history), Cleared(provider), provider);
      if active.Some? {
        HistoryNext(old(history), Cleared(provider), candidates[active.value]);
      }
      outcome := Done;
      if recovered {
        outcome := Emit(ProviderRecovered(provider));
      }
    }

    // -------------------------------------------------------------- selection

    /** A health check says yes or no, or throws. */
    method CheckHealthy(candidate: nat) returns (answer: Answer)
      modifies `deeds
      ensures deeds == old(deeds) + [Checked(candidate, answer)]
    {
      answer := *;
      Did(Checked(candidate, answer));
    }

    /** The circuit of this candidate is closed, and stays so at least until its next failure. */
    ghost predicate Closed(candidate: nat)
      requires candidate < |candidates|
      reads `history, `clock
    {
      !CircuitOpen(settings, history, candidates[candidate], clock)
    }

    /** Checks the candidate, and forgets its failures if it is healthy. */
    method CheckAndClear(candidate: nat) returns (answer: Answer, outcome: Outcome)
      requires Valid() && candidate < |candidates|
      modifies `failures, `history, `events, `eventCursor, `eventCount, `emitted, `deeds, `throws
      ensures Valid() && deeds == old(deeds) + [Checked(candidate, answer)]
      ensures history == old(history) + if answer.Healthy? then [Cleared(candidates[candidate])] else []
      ensures answer.Healthy? ==> Closed(candidate) && FailuresSinceClear(history, candidates[candidate]) == 0
      ensures throws == old(throws) + if answer.Healthy? && outcome.Threw? then 1 else 0
      ensures !answer.Healthy? ==> (outcome.Threw? <==> answer.Failing?)
    {
      answer := CheckHealthy(candidate);
      outcome := if answer.Failing? then Threw else Done;
      if answer.Healthy? {
        outcome := ClearFailure(candidate);
      }
    }

    /** Makes a candidate the active provider if its circuit is closed and it is healthy. */
    method TryToSelect(candidate: nat) returns (verdict: Verdict, ghost did: seq<Deed>)
      requires Valid() && candidate < |candidates|
      modifies `active, `clock, `failures, `history, `events, `eventCursor, `eventCount, `emitted, `deeds, `throws
      ensures Valid() && clock >= old(clock) && old(history) <= history
      ensures deeds == old(deeds) + did
      ensures Selecting(settings, candidates, old(Here()), candidate, did, verdict, Here())
      ensures verdict.Taken? ==> active == Some(candidate) && Closed(candidate)
      ensures verdict.Taken? ==> emitted != [] && emitted[|emitted| - 1] == ProviderSelected(candidates[candidate])
    {
      var open := IsCircuitOpen(candidate);
      ghost var asked := clock;
      ghost var happened: seq<Happening> := [];
      did := [Asked(candidate, open)];
      if open {
        verdict := Passed;
      } else if !settings.healthCheckOnInit {
        active := Some(candidate);
        var outcome := Emit(ProviderSelected(candidates[candidate]));
        verdict := if outcome.Done? then Taken else Stopped;
      } else {
        ghost var exam;
        verdict, exam, happened := CheckAndSelect(candidate);
        did := did + exam;
      }
      assert AskedBetween(settings, old(history), candidates[candidate], old(clock), clock, did[0].open) by {
        assert open <==> CircuitOpen(settings, old(history), candidates[candidate], asked);
      }
      SelectingOfParts(settings, candidates, old(Here()), candidate, did, happened, throws > old(throws), verdict, Here());
    }

    /** Checks the candidate and makes it the active provider if it is healthy. */
    method CheckAndSelect(candidate: nat) returns (verdict: Verdict, ghost exam: seq<Deed>, ghost happened: seq<Happening>)
      requires Valid() && candidate < |candidates| && settings.healthCheckOnInit && Closed(candidate)
      modifies `active, `clock, `failures, `history, `events, `eventCursor, `eventCount, `emitted, `deeds, `throws
      ensures Valid() && clock >= old(clock) && throws >= old(throws)
      ensures deeds == old(deeds) + exam && history == old(history) + happened
      ensures Considered(settings, [Asked(candidate, false)] + exam, candidate, candidates[candidate], happened, clock,
                         throws > old(throws), verdict)
      ensures verdict.Taken? ==> active == Some(candidate) && Closed(candidate)
      ensures verdict.Taken? ==> emitted != [] && emitted[|emitted| - 1] == ProviderSelected(candidates[candidate])
    {
      var answer, outcome := CheckAndClear(candidate);
      exam, happened := [Checked(candidate, answer)], if answer.Healthy? then [Cleared(candidates[candidate])] else [];
      if answer.Sick? {
        return Passed, exam, happened;
      }
      if outcome.Done? {
        active := Some(candidate);
        outcome := Emit(ProviderSelected(candidates[candidate]));
      }
      if outcome.Done? {
        return Taken, exam, happened;
      }
      outcome := RecordFailure(candidate, Stats);
      happened := happened + [Failed(candidates[candidate], clock)];
      verdict := if outcome.Threw? then Stopped else Passed;
    }

    /** Takes the first candidate that is closed and healthy. */
    method ScanCandidates() returns (selected: Option<nat>, ghost did: seq<Deed>)
      requires Valid()
      modifies `active, `clock, `failures, `history, `events, `eventCursor, `eventCount, `emitted, `deeds, `throws
      ensures Valid() && clock >= old(clock) && old(history) <= history
      ensures deeds == old(deeds) + did
      ensures Scanned(settings, candidates, old(Here()), did, selected, Here())
      ensures selected.Some? ==> active == selected && Closed(selected.value)
      ensures selected.Some? ==> emitted != [] && emitted[|emitted| - 1] == ProviderSelected(candidates[selected.value])
    {
      did := [];
      ghost var start := Here();
      for i := 0 to |candidates|
        invariant Valid() && clock >= old(clock) && old(history) <= history
        invariant deeds == old(deeds) + did
        invariant SelectedTo(settings, candidates, start, i, did, Here())
      {
        ghost var before, mid := did, Here();
        ghost var turn;
        var verdict;
        verdict, turn := TryToSelect(i);
        did := before + turn;
        Regroup(old(deeds), before, turn);
        SelectionGoesOn(settings, candidates, start, i, before, mid, turn, verdict, Here());
        if verdict != Passed {
          return if verdict.Taken? then Some(i) else None, did;
        }
      }
      return None, did;
    }

    /** Keeps the active provider while its circuit is closed; otherwise takes the first one that is closed and healthy. */
    method SelectProvider() returns (selected: Option<nat>, ghost did: seq<Deed>)
      requires Valid()
      modifies `active, `clock, `failures, `history, `events, `eventCursor, `eventCount, `emitted, `deeds, `throws
      ensures Valid() && clock >= old(clock) && old(history) <= history
      ensures deeds == old(deeds) + did
      ensures Selected(settings, candidates, old(active), old(Here()), did, selected, Here())
      ensures selected.Some? ==> active == selected && Closed(selected.value)
      ensures Kept(old(active), did) ==> selected == old(active) && history == old(history) && emitted == old(emitted)
      ensures !Kept(old(active), did) && throws == old(throws) ==> Chosen(settings, |candidates|, did, selected)
      ensures !Kept(old(active), did) && selected.Some? ==>
        emitted != [] && emitted[|emitted| - 1] == ProviderSelected(candidates[selected.value])
    {
      ghost var first: seq<Deed> := [];
      if active.Some? {
        var open := IsCircuitOpen(active.value);
        first := [Asked(active.value, open)];
        if !open {
          return active, first;
        }
      }
      ghost var rest;
      selected, rest := ScanCandidates();
      did := first + rest;
      assert if old(active).Some? then did[1..] == rest else did == rest;
      SelectionChooses(settings, candidates, old(active), old(Here()), did, selected, Here());
    }

    // -------------------------------------------------------------- running operations

    /** Announces a retry and its delay. */
    method TellRetry(candidate: nat, operation: Operation, attempt: nat, delayMs: nat, ghost retries: seq<Event>)
      returns (told: Outcome, ghost more: seq<Event>)
      requires Valid() && candidate < |candidates| && attempt == |retries| + 1 && delayMs == Backoff(settings, attempt)
      requires Retries(settings, retries, candidates[candidate], operation)
      modifies `events, `eventCursor, `eventCount, `emitted, `throws
      ensures Valid() && throws == old(throws) + if told.Threw? then 1 else 0
      ensures |more| == attempt && more == retries + [more[attempt - 1]] && emitted == old(emitted) + [more[attempt - 1]]
      ensures Retries(settings, more, candidates[candidate], operation)
    {
      var drawn: real := *;
      var nextDelayMs := RetryDelay(delayMs, settings.maxRetryDelayMs, drawn);
      ghost var event := ProviderRetry(candidates[candidate], operation, attempt, nextDelayMs);
      told := Emit(ProviderRetry(candidates[candidate], operation, attempt, nextDelayMs));
      RetriesMore(settings, retries, event, candidates[candidate], operation);
      more := retries + [event];
    }

    /** Runs the operation once; it succeeds or throws. */
    method RunOnce(candidate: nat) returns (outcome: Outcome)
      requires Valid()
      modifies `deeds
      ensures Valid() && deeds == old(deeds) + [Ran(candidate, outcome)]
    {
      outcome := *;
      Did(Ran(candidate, outcome));
    }

    /**
     * Runs the operation on one provider whose circuit is closed, until it succeeds or the attempts are used up.
     * isRetryable tells for each attempt whether its error may be retried.
     */
    method RunWithRetry(candidate: nat, operation: Operation, isRetryable: nat -> bool)
      returns (outcome: Outcome, ghost did: seq<Deed>, ghost retries: seq<Event>)
      requires Valid() && candidate < |candidates| && Closed(candidate)
      modifies `events, `eventCursor, `eventCount, `emitted, `deeds, `throws
      ensures Valid() && throws >= old(throws) && deeds == old(deeds) + did
      ensures Attempted(did, candidate, settings.retryAttempts) && outcome == did[|did| - 1].outcome
      ensures !settings.retryWrites && (operation.Upsert? || operation.Delete?) ==> |did| == 1
      ensures emitted == old(emitted) + retries && |did| - 1 <= |retries| <= |did|
      ensures Retries(settings, retries, candidates[candidate], operation)
      ensures forall attempt :: 1 <= attempt < |did| ==> isRetryable(attempt)
      ensures outcome.Threw? && throws == old(throws) && (settings.retryWrites || (operation != Upsert && operation != Delete)) ==>
        |did| == settings.retryAttempts || !isRetryable(|did|)
    {
      var allowRetry := settings.retryWrites || (operation != Upsert && operation != Delete);
      var delayMs: nat := settings.initialRetryDelayMs;
      var attempt := 1;
      did, retries := [], [];
      while true
        invariant Valid() && throws >= old(throws) && deeds == old(deeds) + did
        invariant 1 <= attempt <= settings.retryAttempts && (!allowRetry ==> attempt == 1)
        invariant |did| == attempt - 1 && forall k :: 0 <= k < |did| ==> did[k] == Ran(candidate, Threw)
        invariant emitted == old(emitted) + retries && |retries| == attempt - 1 && delayMs == Backoff(settings, attempt)
        invariant Retries(settings, retries, candidates[candidate], operation)
        invariant forall earlier :: 1 <= earlier < attempt ==> isRetryable(earlier)
        decreases settings.retryAttempts - attempt
      {
        outcome := RunOnce(candidate);
        Regroup(old(deeds), did, [Ran(candidate, outcome)]);
        did := did + [Ran(candidate, outcome)];
        if outcome.Done? {
          return;
        }
        assert outcome == Threw;
        if !allowRetry || attempt >= settings.retryAttempts || !isRetryable(attempt) {
          return;
        }
        var told;
        ghost var before := retries;
        told, retries := TellRetry(candidate, operation, attempt, delayMs, retries);
        Regroup(old(emitted), before, [retries[attempt - 1]]);
        if told.Threw? {
          return;
        }
        delayMs := Smaller(settings.maxRetryDelayMs, 2 * delayMs);
        attempt := attempt + 1;
      }
    }

    /** Checks a candidate, and if it is healthy makes it the active one and runs the operation on it. */
    method CheckAndRun(candidate: nat, operation: Operation) returns (answer: Answer, outcome: Outcome, ghost did: seq<Deed>)
      requires Valid() && candidate < |candidates|
      modifies `active, `failures, `history, `events, `eventCursor, `eventCount, `emitted, `deeds, `throws
      ensures Valid() && throws >= old(throws) && deeds == old(deeds) + did
      ensures history == old(history) + if answer.Healthy? then [Cleared(candidates[candidate])] else []
      ensures Examined(settings, did, candidate, answer, outcome, throws > old(throws))
      ensures answer.Healthy? && outcome.Done? ==> active == Some(candidate) && FailuresSinceClear(history, candidates[candidate]) == 0
    {
      answer, outcome := CheckAndClear(candidate);
      did := [Checked(candidate, answer)];
      if answer.Healthy? && outcome.Done? {
        active := Some(candidate);
        ghost var runs, retries;
        var isRetryable: nat -> bool := *;
        outcome, runs, retries := RunWithRetry(candidate, operation, isRetryable);
        did := did + runs;
        assert did[1..] == runs;
      }
    }

    /** Runs the operation on one more candidate, if its circuit is closed and it is healthy. */
    method TryFallback(candidate: nat, operation: Operation) returns (verdict: Verdict, ghost did: seq<Deed>, ghost happened: seq<Happening>)
      requires Valid() && candidate < |candidates|
      modifies this
      ensures Valid() && clock >= old(clock) && throws >= old(throws)
      ensures deeds == old(deeds) + did && history == old(history) + happened
      ensures Tried(settings, did, candidate, candidates[candidate], happened, clock, throws > old(throws), verdict)
      ensures AskedBetween(settings, old(history), candidates[candidate], old(clock), clock, did[0].open)
      ensures verdict.Taken? ==> active == Some(candidate) && FailuresSinceClear(history, candidates[candidate]) == 0
    {
      var open := IsCircuitOpen(candidate);
      did, happened := [Asked(candidate, open)], [];
      if open {
        return Passed, did, happened;
      }
      ghost var exam;
      var answer, outcome;
      answer, outcome, exam := CheckAndRun(candidate, operation);
      did := did + exam;
      happened := if answer.Healthy? then [Cleared(candidates[candidate])] else [];
      ghost var threw := throws > old(throws);
      verdict := if answer.Sick? then Passed else if outcome.Done? then Taken else Stopped;
      if verdict.Stopped? {
        outcome := RecordFailure(candidate, operation);
        happened := happened + [Failed(candidates[candidate], clock)];
        verdict := if outcome.Threw? then Stopped else Passed;
      }
      ExaminedIsTried(settings, exam, candidate, candidates[candidate], answer, happened, clock, threw, throws > old(throws), verdict);
    }

    /** Runs the operation on the selected provider and forgets its failures if that works. */
    method RunAndClear(candidate: nat, operation: Operation) returns (outcome: Outcome, ghost runs: seq<Deed>)
      requires Valid() && candidate < |candidates| && Closed(candidate)
      modifies `failures, `history, `events, `eventCursor, `eventCount, `emitted, `deeds, `throws
      ensures Valid() && throws >= old(throws) && deeds == old(deeds) + runs
      ensures Attempted(runs, candidate, settings.retryAttempts)
      ensures history == old(history) + if runs[|runs| - 1].outcome.Done? then [Cleared(candidates[candidate])] else []
      ensures outcome.Done? ==> runs[|runs| - 1].outcome.Done? && FailuresSinceClear(history, candidates[candidate]) == 0
      ensures outcome.Threw? && throws == old(throws) ==> runs[|runs| - 1].outcome.Threw?
      ensures outcome.Threw? && runs[|runs| - 1].outcome.Done? ==> FailuresSinceClear(old(history), candidates[candidate]) > 0
    {
      ghost var retries;
      var isRetryable: nat -> bool := *;
      outcome, runs, retries := RunWithRetry(candidate, operation, isRetryable);
      if outcome.Done? {
        outcome := ClearFailure(candidate);
      }
    }

    /** Runs the operation on the selected provider; the caller goes on to the others if it fails. */
    method TryPrimary(primary: nat, operation: Operation) returns (verdict: Verdict, ghost runs: seq<Deed>)
      requires Valid() && primary < |candidates| && Closed(primary) && active == Some(primary)
      modifies this
      ensures Valid() && clock >= old(clock) && old(history) <= history
      ensures deeds == old(deeds) + runs
      ensures PrimaryTried(settings, candidates, old(Here()), primary, runs, verdict, Here())
      ensures verdict.Taken? ==> active == Some(primary)
    {
      var outcome;
      outcome, runs := RunAndClear(primary, operation);
      if outcome.Done? {
        return Taken, runs;
      }
      outcome := RecordFailure(primary, operation);
      verdict := if outcome.Threw? || !settings.failOpen then Stopped else Passed;
    }

    /** The i-th candidate's turn, or none because it has the primary's name. */
    method TryNext(primary: nat, i: nat, operation: Operation) returns (verdict: Verdict, ghost turn: seq<Deed>)
      requires Valid() && primary < |candidates| && i < |candidates|
      modifies this
      ensures Valid() && clock >= old(clock) && old(history) <= history
      ensures deeds == old(deeds) + turn
      ensures Turned(settings, candidates, old(Here()), primary, i, turn, verdict, Here())
      ensures verdict.Taken? ==> active == Some(i)
    {
      if candidates[i] == candidates[primary] {
        return Passed, [];
      }
      ghost var happened;
      verdict, turn, happened := TryFallback(i, operation);
      TurnedOfParts(settings, candidates, old(Here()), primary, i, turn, happened, throws > old(throws), verdict, Here());
    }

    /** Gives the other candidates their turn until one is taken. */
    method TryOthers(primary: nat, operation: Operation) returns (provider: Option<nat>, ghost did: seq<Deed>)
      requires Valid() && primary < |candidates|
      modifies this
      ensures Valid() && clock >= old(clock) && old(history) <= history
      ensures deeds == old(deeds) + did
      ensures OthersTried(settings, candidates, old(Here()), primary, did, provider, Here())
      ensures provider.Some? ==> active == provider
    {
      did := [];
      ghost var start := Here();
      for i := 0 to |candidates|
        invariant Valid() && clock >= old(clock) && old(history) <= history
        invariant deeds == old(deeds) + did
        invariant TurnedTo(settings, candidates, start, primary, i, did, Here())
      {
        ghost var soFar, mid := did, Here();
        ghost var turn;
        var verdict;
        verdict, turn := TryNext(primary, i, operation);
        did := soFar + turn;
        Regroup(old(deeds), soFar, turn);
        TurnsGoOn(settings, candidates, start, primary, i, soFar, mid, turn, verdict, Here());
        if verdict != Passed {
          return if verdict.Taken? then Some(i) else None, did;
        }
      }
      return None, did;
    }

    /** Runs the operation on the selected provider, and if it fails on the others in turn, each at most once. */
    method Execute(primary: nat, operation: Operation) returns (provider: Option<nat>, ghost did: seq<Deed>)
      requires Valid() && primary < |candidates| && Closed(primary) && active == Some(primary)
      modifies this
      ensures Valid() && clock >= old(clock) && old(history) <= history
      ensures deeds == old(deeds) + did
      ensures Executed(settings, candidates, old(Here()), primary, did, provider, Here())
      ensures provider.Some? ==> active == provider
    {
      var verdict, runs := TryPrimary(primary, operation);
      ghost var mid, rest := Here(), [];
      did := runs;
      assert runs == runs + rest;
      if verdict != Passed {
        return if verdict.Taken? then Some(primary) else None, did;
      }
      provider, rest := TryOthers(primary, operation);
      did := runs + rest;
    }

    /** The same, if a provider was selected. */
    method ExecuteSelected(selected: Option<nat>, operation: Operation) returns (provider: Option<nat>, ghost did: seq<Deed>)
      requires Valid() && (selected.Some? ==> selected.value < |candidates| && Closed(selected.value) && active == selected)
      modifies this
      ensures Valid() && clock >= old(clock) && old(history) <= history
      ensures deeds == old(deeds) + did
      ensures Continued(settings, candidates, old(Here()), selected, did, provider, Here())
      ensures provider.Some? ==> active == provider
    {
      provider, did := None, [];
      if selected.Some? {
        provider, did := Execute(selected.value, operation);
      }
    }

    /** A provider is selected, and the operation runs. */
    method SelectAndExecute(operation: Operation)
      returns (provider: Option<nat>, ghost asked: seq<Deed>, ghost selected: Option<nat>, ghost mid: Standing, ghost rest: seq<Deed>)
      requires Valid()
      modifies this
      ensures Valid() && clock >= old(clock) && old(history) <= history
      ensures deeds == old(deeds) + asked + rest
      ensures Selected(settings, candidates, old(active), old(Here()), asked, selected, mid)
      ensures Continued(settings, candidates, mid, selected, rest, provider, Here())
      ensures provider.Some? ==> active == provider
    {
      var primary;
      primary, asked := SelectProvider();
      selected, mid := primary, Here();
      provider, rest := ExecuteSelected(primary, operation);
    }

    /**
     * One call. Whatever the listener does, the operation succeeds at most twice, and twice only if that was possible
     * before the call; with health checks before selection it never was.
     */
    method WithFallbackExecution(operation: Operation) returns (provider: Option<nat>, ghost did: seq<Deed>)
      requires Valid()
      modifies this
      ensures Valid() && clock >= old(clock) && old(history) <= history
      ensures deeds == old(deeds) + did
      ensures Called(settings, candidates, old(active), old(Here()), did, provider, Here())
      ensures provider.Some? ==> active == provider
      ensures Ended(settings, candidates, history, did, provider, throws == old(throws))
      ensures Successes(did) <= if MayRepeat(settings, candidates, old(active), old(history)) then 2 else 1
      ensures settings.healthCheckOnInit ==> Successes(did) <= 1
      ensures !settings.failOpen ==> forall d, e :: d in did && e in did && d.Ran? && e.Ran? ==> d.candidate == e.candidate
    {
      ghost var asked, selected, mid, rest;
      provider, asked, selected, mid, rest := SelectAndExecute(operation);
      did := asked + rest;
      Regroup(old(deeds), asked, rest);
      CallHolds(settings, candidates, old(active), old(Here()), asked, selected, mid, rest, did, provider, Here());
    }
  }
}
