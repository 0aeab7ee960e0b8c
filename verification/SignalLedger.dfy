/** The in-memory signal ledger: src/recommendation/signal-ledger.ts. */
module SignalLedger {

  /** Operation and source keys stand for the salted hashes of the identifiers; hashes are compared as numbers. */
  type OperationKey = nat
  type SourceKey = nat
  type Millis = int

  datatype Event =
    | Apply(operation: OperationKey, source: SourceKey, at: Millis, signal: string)
    | Retract(operation: OperationKey, source: SourceKey, target: SourceKey, at: Millis, reason: string)

  datatype Active = Active(operation: OperationKey, at: Millis, signal: string)
  datatype Tombstone = Tombstone(operation: OperationKey, at: Millis, reason: string)
  datatype Decision = Applied | Retracted | Suppressed | Duplicate
  datatype Error = ConflictingOperation | ConflictingSource | LimitExceeded

  /** What the ledger remembers; an operation is stored with the event it stood for, in place of that event's digest. */
  datatype Ledger = Ledger(
    operations: map<OperationKey, Event>,
    active: map<SourceKey, Active>,
    tombstones: map<SourceKey, Tombstone>)

  datatype Ingested = Accepted(ledger: Ledger, decision: Decision) | Refused(error: Error)
  datatype BatchResult = Batch(ledger: Ledger, decisions: seq<Decision>) | BatchRefused(error: Error)

  const EMPTY := Ledger(map[], map[], map[])

  predicate Newer(existing: Tombstone, at: Millis, operation: OperationKey) {
    if at != existing.at then at > existing.at else operation > existing.operation
  }

  function Ingest(l: Ledger, e: Event, maxOperations: nat): Ingested {
    if e.operation in l.operations then
      if l.operations[e.operation] != e then Refused(ConflictingOperation) else Accepted(l, Duplicate)
    else if |l.operations| >= maxOperations then Refused(LimitExceeded)
    else
      var operations := l.operations[e.operation := e];
      match e
      case Apply(op, source, at, signal) =>
        if source in l.tombstones then Accepted(l.(operations := operations), Suppressed)
        else if source in l.active then Refused(ConflictingSource)
        else Accepted(Ledger(operations, l.active[source := Active(op, at, signal)], l.tombstones), Applied)
      case Retract(op, _, target, at, reason) =>
        var tombstones :=
          if target !in l.tombstones || Newer(l.tombstones[target], at, op)
          then l.tombstones[target := Tombstone(op, at, reason)] else l.tombstones;
        Accepted(Ledger(operations, l.active - {target}, tombstones), Retracted)
  }

  /** Ingests in order; an event that is refused makes the whole batch fail. */
  function IngestBatch(l: Ledger, events: seq<Event>, maxOperations: nat): (r: BatchResult)
    ensures r.Batch? ==> |r.decisions| == |events|
  {
    if events == [] then Batch(l, [])
    else
      var rest := IngestBatch(l, events[..|events| - 1], maxOperations);
      if rest.BatchRefused? then rest
      else
        var last := Ingest(rest.ledger, events[|events| - 1], maxOperations);
        if last.Refused? then BatchRefused(last.error)
        else Batch(last.ledger, rest.decisions + [last.decision])
  }

  /** The events that were not duplicates, in order: what a caller has to keep to rebuild the ledger. */
  function Kept(events: seq<Event>, decisions: seq<Decision>): (kept: seq<Event>)
    requires |events| == |decisions|
  {
    if events == [] then []
    else
      var n := |events| - 1;
      Kept(events[..n], decisions[..n]) + if decisions[n] == Duplicate then [] else [events[n]]
  }

  lemma {:induction false} BatchConcat(l: Ledger, a: seq<Event>, b: seq<Event>, max: nat)
    ensures var first := IngestBatch(l, a, max);
      IngestBatch(l, a + b, max) ==
        if first.BatchRefused? then first
        else
          var second := IngestBatch(first.ledger, b, max);
          if second.BatchRefused? then second else Batch(second.ledger, first.decisions + second.decisions)
  {
    if b == [] {
      assert a + b == a;
    } else {
      var n := |b| - 1;
      BatchConcat(l, a, b[..n], max);
      assert (a + b)[..|a + b| - 1] == a + b[..n];
      var first := IngestBatch(l, a, max);
      if first.Batch? {
        var second := IngestBatch(first.ledger, b[..n], max);
        if second.Batch? {
          var last := Ingest(second.ledger, b[n], max);
          if last.Accepted? {
            assert first.decisions + second.decisions + [last.decision] == first.decisions + (second.decisions + [last.decision]);
          }
        }
      }
    }
  }

  /** Dropping the duplicates changes nothing: the kept events alone lead to the same ledger. */
  lemma {:induction false} KeptEventsSuffice(l: Ledger, events: seq<Event>, max: nat)
    requires IngestBatch(l, events, max).Batch?
    ensures var r := IngestBatch(l, events, max);
      var again := IngestBatch(l, Kept(events, r.decisions), max);
      again.Batch? && again.ledger == r.ledger
  {
    if events != [] {
      var n := |events| - 1;
      KeptEventsSuffice(l, events[..n], max);
      var r := IngestBatch(l, events, max);
      var rest := IngestBatch(l, events[..n], max);
      assert r.decisions[..n] == rest.decisions;
      var kept := Kept(events[..n], rest.decisions);
      if r.decisions[n] == Duplicate {
        assert Kept(events, r.decisions) == kept;
      } else {
        assert (kept + [events[n]])[..|kept|] == kept;
        assert Kept(events, r.decisions) == kept + [events[n]];
      }
    }
  }

  /** Once taken in, an event stays known. */
  lemma {:induction false} OperationsGrow(l: Ledger, events: seq<Event>, max: nat)
    requires IngestBatch(l, events, max).Batch?
    ensures var after := IngestBatch(l, events, max).ledger;
      && (forall op :: op in l.operations ==> op in after.operations && after.operations[op] == l.operations[op])
      && (forall i :: 0 <= i < |events| ==> events[i].operation in after.operations && after.operations[events[i].operation] == events[i])
  {
    if events != [] {
      OperationsGrow(l, events[..|events| - 1], max);
      forall i | 0 <= i < |events| - 1
        ensures events[..|events| - 1][i] == events[i]
      {
      }
    }
  }

  /** Retrying a batch that went through leaves the ledger as it is and reports only duplicates. */
  lemma RetryIsHarmless(l: Ledger, events: seq<Event>, max: nat)
    requires IngestBatch(l, events, max).Batch?
    ensures var after := IngestBatch(l, events, max).ledger;
      IngestBatch(after, events, max) == Batch(after, seq(|events|, i => Duplicate))
  {
    OperationsGrow(l, events, max);
    KnownEventsAreDuplicates(IngestBatch(l, events, max).ledger, events, max);
  }

  lemma {:induction false} KnownEventsAreDuplicates(l: Ledger, events: seq<Event>, max: nat)
    requires forall i :: 0 <= i < |events| ==> events[i].operation in l.operations && l.operations[events[i].operation] == events[i]
    ensures IngestBatch(l, events, max) == Batch(l, seq(|events|, i => Duplicate))
  {
    if events != [] {
      KnownEventsAreDuplicates(l, events[..|events| - 1], max);
    }
  }

  // ---------------------------------------------------------------- what a ledger says about its events

  /** The operations are the events themselves, each under its own key. */
  ghost predicate KnowsOperations(l: Ledger, events: seq<Event>) {
    && (forall e :: e in events ==> e.operation in l.operations && l.operations[e.operation] == e)
    && (forall op :: op in l.operations ==> l.operations[op] in events && l.operations[op].operation == op)
  }

  /** Some event retracts the source and leaves this tombstone. */
  ghost predicate Leaves(events: seq<Event>, s: SourceKey, t: Tombstone) {
    exists e :: e in events && e.Retract? && e.target == s && t == Tombstone(e.operation, e.at, e.reason)
  }

  /** The event's tombstone is there, or one of a later time, or of the same time and a larger operation key. */
  predicate Covers(l: Ledger, e: Event) {
    e.Retract? ==>
      && e.target in l.tombstones
      && var t := l.tombstones[e.target]; t.at > e.at || (t.at == e.at && t.operation >= e.operation)
  }

  /** A source has a tombstone when some event retracts it: the latest, ties broken by the larger operation key. */
  ghost predicate KnowsRetractions(l: Ledger, events: seq<Event>) {
    && (forall s {:trigger Leaves(events, s, l.tombstones[s])} :: s in l.tombstones ==> Leaves(events, s, l.tombstones[s]))
    && (forall e {:trigger Covers(l, e)} :: e in events ==> Covers(l, e))
  }

  /** A signal is active when some event applies it and none retracts it, in whatever order they came. */
  ghost predicate KnowsSignals(l: Ledger, events: seq<Event>) {
    && (forall s :: s in l.active ==>
          var a := l.active[s];
          s !in l.tombstones && Apply(a.operation, s, a.at, a.signal) in events)
    && (forall e :: e in events && e.Apply? && e.source !in l.tombstones ==>
          e.source in l.active && l.active[e.source] == Active(e.operation, e.at, e.signal))
  }

  ghost predicate Describes(l: Ledger, events: seq<Event>) {
    KnowsOperations(l, events) && KnowsRetractions(l, events) && KnowsSignals(l, events)
  }

  /** The ledger is exactly what its events say, whatever their order and repetition. */
  lemma {:induction false} LedgerDescribesEvents(events: seq<Event>, max: nat)
    requires IngestBatch(EMPTY, events, max).Batch?
    ensures Describes(IngestBatch(EMPTY, events, max).ledger, events)
  {
    if events != [] {
      var n := |events| - 1;
      LedgerDescribesEvents(events[..n], max);
      var l := IngestBatch(EMPTY, events[..n], max).ledger;
      DescribesOperations(l, events[..n], events[n], max);
      DescribesRetractions(l, events[..n], events[n], max);
      DescribesSignals(l, events[..n], events[n], max);
      assert events == events[..n] + [events[n]];
    }
  }

  lemma DescribesOperations(l: Ledger, events: seq<Event>, e: Event, max: nat)
    requires KnowsOperations(l, events) && Ingest(l, e, max).Accepted?
    ensures KnowsOperations(Ingest(l, e, max).ledger, events + [e])
  {
    var l' := Ingest(l, e, max).ledger;
    if e.operation !in l.operations {
      forall x | x in events
        ensures x.operation in l'.operations && l'.operations[x.operation] == x
      {
        assert x.operation != e.operation;
      }
    }
  }

  lemma DescribesRetractions(l: Ledger, events: seq<Event>, e: Event, max: nat)
    requires KnowsOperations(l, events) && KnowsRetractions(l, events) && Ingest(l, e, max).Accepted?
    ensures KnowsRetractions(Ingest(l, e, max).ledger, events + [e])
  {
    var l' := Ingest(l, e, max).ledger;
    forall s | s in l'.tombstones
      ensures Leaves(events + [e], s, l'.tombstones[s])
    {
      if s in l.tombstones && l'.tombstones[s] == l.tombstones[s] {
        assert Leaves(events, s, l.tombstones[s]);
        LeavesStill(events, e, s, l.tombstones[s]);
      } else {
        assert e in events + [e];
      }
    }
    forall x | x in events + [e]
      ensures Covers(l', x)
    {
      if x in events {
        assert Covers(l, x);
      }
    }
  }

  lemma LeavesStill(events: seq<Event>, e: Event, s: SourceKey, t: Tombstone)
    requires Leaves(events, s, t)
    ensures Leaves(events + [e], s, t)
  {
    var x :| x in events && x.Retract? && x.target == s && t == Tombstone(x.operation, x.at, x.reason);
    assert x in events + [e];
  }

  lemma DescribesSignals(l: Ledger, events: seq<Event>, e: Event, max: nat)
    requires KnowsOperations(l, events) && KnowsSignals(l, events) && Ingest(l, e, max).Accepted?
    ensures KnowsSignals(Ingest(l, e, max).ledger, events + [e])
  {
    var l' := Ingest(l, e, max).ledger;
    var all := events + [e];
    assert e in all;
    forall s | s in l'.active
      ensures s !in l'.tombstones && Apply(l'.active[s].operation, s, l'.active[s].at, l'.active[s].signal) in all
    {
      if s in l.active && l'.active[s] == l.active[s] {
        assert Apply(l.active[s].operation, s, l.active[s].at, l.active[s].signal) in events;
      }
    }
  }

  /** Two lists with the same events that both go through leave the same ledger. */
  lemma OrderDoesNotMatter(a: seq<Event>, b: seq<Event>, max: nat)
    requires IngestBatch(EMPTY, a, max).Batch? && IngestBatch(EMPTY, b, max).Batch?
    requires forall e :: e in a <==> e in b
    ensures IngestBatch(EMPTY, a, max).ledger == IngestBatch(EMPTY, b, max).ledger
  {
    LedgerDescribesEvents(a, max);
    LedgerDescribesEvents(b, max);
    DescriptionDetermines(IngestBatch(EMPTY, a, max).ledger, IngestBatch(EMPTY, b, max).ledger, a, b);
  }

  lemma DescriptionDetermines(l: Ledger, m: Ledger, a: seq<Event>, b: seq<Event>)
    requires Describes(l, a) && Describes(m, b) && forall e :: e in a <==> e in b
    ensures l == m
  {
    SameOperations(l, m, a, b);
    forall s | s in l.tombstones
      ensures s in m.tombstones && l.tombstones[s] == m.tombstones[s]
    {
      SameTombstone(l, m, a, b, s);
    }
    forall s | s in m.tombstones
      ensures s in l.tombstones && l.tombstones[s] == m.tombstones[s]
    {
      SameTombstone(m, l, b, a, s);
    }
    assert l.tombstones.Keys == m.tombstones.Keys;
    assert l.tombstones == m.tombstones;
    SameSignals(l, m, a, b);
  }

  lemma SameOperations(l: Ledger, m: Ledger, a: seq<Event>, b: seq<Event>)
    requires KnowsOperations(l, a) && KnowsOperations(m, b) && forall e :: e in a <==> e in b
    ensures l.operations == m.operations
  {
    forall op | op in l.operations
      ensures op in m.operations && l.operations[op] == m.operations[op]
    {
      assert l.operations[op] in a;
    }
    forall op | op in m.operations
      ensures op in l.operations
    {
      assert m.operations[op] in b;
    }
  }

  lemma SameTombstone(l: Ledger, m: Ledger, a: seq<Event>, b: seq<Event>, s: SourceKey)
    requires KnowsOperations(l, a) && KnowsRetractions(l, a) && KnowsRetractions(m, b)
    requires (forall e :: e in a <==> e in b) && s in l.tombstones
    ensures s in m.tombstones && l.tombstones[s] == m.tombstones[s]
  {
    assert Leaves(a, s, l.tombstones[s]);
    var x :| x in a && x.Retract? && x.target == s && l.tombstones[s] == Tombstone(x.operation, x.at, x.reason);
    assert x in b && Covers(m, x);
    assert Leaves(b, s, m.tombstones[s]);
    var y :| y in b && y.Retract? && y.target == s && m.tombstones[s] == Tombstone(y.operation, y.at, y.reason);
    assert y in a && Covers(l, y);
    assert l.operations[x.operation] == x && l.operations[y.operation] == y;
  }

  lemma SameSignals(l: Ledger, m: Ledger, a: seq<Event>, b: seq<Event>)
    requires KnowsSignals(l, a) && KnowsSignals(m, b) && l.tombstones == m.tombstones && forall e :: e in a <==> e in b
    ensures l.active == m.active
  {
    forall s | s in l.active
      ensures s in m.active && l.active[s] == m.active[s]
    {
      assert Apply(l.active[s].operation, s, l.active[s].at, l.active[s].signal) in b;
    }
    forall s | s in m.active
      ensures s in l.active
    {
      assert Apply(m.active[s].operation, s, m.active[s].at, m.active[s].signal) in a;
    }
  }

  // ---------------------------------------------------------------- which events are taken, and how

  ghost predicate Retracts(events: seq<Event>, s: SourceKey) {
    exists e :: e in events && e.Retract? && e.target == s
  }

  ghost predicate Applies(events: seq<Event>, s: SourceKey) {
    exists e :: e in events && e.Apply? && e.source == s
  }

  /** No event has the operation key. */
  ghost predicate Unused(events: seq<Event>, op: OperationKey) {
    forall e :: e in events ==> e.operation != op
  }

  ghost function Distinct(events: seq<Event>): set<Event> {
    set e | e in events
  }

  lemma DistinctGrows(events: seq<Event>, e: Event)
    ensures Distinct(events + [e]) == Distinct(events) + {e}
    ensures |Distinct(events + [e])| == |Distinct(events)| + if e in events then 0 else 1
  {
    forall x
      ensures x in Distinct(events + [e]) <==> x in Distinct(events) + {e}
    {
    }
    if e in events {
      assert Distinct(events) + {e} == Distinct(events);
    }
  }

  lemma OperationCounts(l: Ledger, events: seq<Event>, e: Event, max: nat)
    requires KnowsOperations(l, events) && Ingest(l, e, max).Accepted?
    ensures var n := |Ingest(l, e, max).ledger.operations|;
      n == |l.operations| + (if e in events then 0 else 1) && (e !in events ==> n <= max)
  {
    if e.operation in l.operations {
      assert l.operations[e.operation] in events;
    }
  }

  lemma {:induction false} OneOperationEach(events: seq<Event>, max: nat)
    requires IngestBatch(EMPTY, events, max).Batch?
    ensures |IngestBatch(EMPTY, events, max).ledger.operations| == |Distinct(events)| <= max
  {
    if events == [] {
      assert Distinct(events) == {};
    } else {
      var before, last := events[..|events| - 1], events[|events| - 1];
      OneOperationEach(before, max);
      LedgerDescribesEvents(before, max);
      OperationCounts(IngestBatch(EMPTY, before, max).ledger, before, last, max);
      assert events == before + [last];
      DistinctGrows(before, last);
    }
  }

  lemma {:induction false} KnownSources(events: seq<Event>, max: nat, s: SourceKey)
    requires IngestBatch(EMPTY, events, max).Batch?
    ensures var l := IngestBatch(EMPTY, events, max).ledger;
      && (s in l.tombstones <==> Retracts(events, s))
      && (s in l.active <==> Applies(events, s) && !Retracts(events, s))
  {
    LedgerDescribesEvents(events, max);
    var l := IngestBatch(EMPTY, events, max).ledger;
    if s in l.tombstones {
      assert Leaves(events, s, l.tombstones[s]);
    }
    if Retracts(events, s) {
      var e :| e in events && e.Retract? && e.target == s;
      assert Covers(l, e);
    }
  }

  /** After events that went through: what one more event is answered, in terms of these events alone. */
  lemma AnsweredExactly(events: seq<Event>, e: Event, max: nat)
    requires IngestBatch(EMPTY, events, max).Batch?
    ensures var r := Ingest(IngestBatch(EMPTY, events, max).ledger, e, max);
      if e in events then r.Accepted? && r.decision == Duplicate
      else if !Unused(events, e.operation) then r == Refused(ConflictingOperation)
      else if |Distinct(events)| >= max then r == Refused(LimitExceeded)
      else if e.Retract? then r.Accepted? && r.decision == Retracted
      else if Retracts(events, e.source) then r.Accepted? && r.decision == Suppressed
      else if Applies(events, e.source) then r == Refused(ConflictingSource)
      else r.Accepted? && r.decision == Applied
  {
    LedgerDescribesEvents(events, max);
    OneOperationEach(events, max);
    if e.Apply? {
      KnownSources(events, max, e.source);
    }
  }

  /** Two events agree with all before the second: one key is one event, and a source is applied once until it is retracted. */
  ghost predicate Agree(events: seq<Event>, i: nat, j: nat)
    requires i < j < |events|
  {
    var (d, e) := (events[i], events[j]);
    && (d.operation == e.operation ==> d == e)
    && (d.Apply? && e.Apply? && d.source == e.source ==> d == e || Retracts(events[..j], e.source))
  }

  /** A batch goes through exactly when its distinct events fit the limit and any two of them agree. */
  ghost predicate Acceptable(events: seq<Event>, max: nat) {
    |Distinct(events)| <= max && forall i, j :: 0 <= i < j < |events| ==> Agree(events, i, j)
  }

  ghost predicate LastAgrees(events: seq<Event>)
    requires events != []
  {
    forall i, j :: 0 <= i < j == |events| - 1 ==> Agree(events, i, j)
  }

  lemma FewerInPrefix(events: seq<Event>, max: nat)
    requires events != []
    ensures var before, last := events[..|events| - 1], events[|events| - 1];
      |Distinct(events)| == |Distinct(before)| + if last in before then 0 else 1
    ensures Acceptable(events, max) <==>
            && Acceptable(events[..|events| - 1], max) && |Distinct(events)| <= max
            && LastAgrees(events)
  {
    var n := |events| - 1;
    var before, last := events[..n], events[n];
    assert events == before + [last];
    DistinctGrows(before, last);
    forall i, j | 0 <= i < j < n
      ensures Agree(events, i, j) <==> Agree(before, i, j)
    {
      assert before[..j] == events[..j];
    }
  }

  lemma LastAgreesExactly(events: seq<Event>, max: nat)
    requires events != [] && Acceptable(events[..|events| - 1], max)
    ensures var before, last := events[..|events| - 1], events[|events| - 1];
      LastAgrees(events) <==> (last in before || (
        Unused(before, last.operation) && (last.Apply? ==> Retracts(before, last.source) || !Applies(before, last.source))))
  {
    var n := |events| - 1;
    var before, last := events[..n], events[n];
    if k :| 0 <= k < n && before[k] == last {
      forall i, j | 0 <= i < j == n
        ensures Agree(events, i, j)
      {
        if i != k {
          var first, second := if i < k then i else k, if i < k then k else i;
          assert Agree(before, first, second);
          RetractsLater(before, second);
        }
      }
    } else if LastAgrees(events) {
      forall d | d in before
        ensures d.operation != last.operation
        ensures d.Apply? && last.Apply? && d.source == last.source ==> Retracts(before, last.source)
      {
        var i :| 0 <= i < n && before[i] == d;
        assert Agree(events, i, n);
      }
    } else {
      var i, j :| 0 <= i < j == n && !Agree(events, i, j);
      assert events[i] == before[i] && before[i] in before;
    }
  }

  lemma RetractsLater(events: seq<Event>, j: nat)
    requires j <= |events|
    ensures forall s :: Retracts(events[..j], s) ==> Retracts(events, s)
  {
  }

  lemma {:induction false} AcceptedExactly(events: seq<Event>, max: nat)
    ensures IngestBatch(EMPTY, events, max).Batch? <==> Acceptable(events, max)
  {
    if events == [] {
      assert Distinct(events) == {};
    } else {
      var before, last := events[..|events| - 1], events[|events| - 1];
      AcceptedExactly(before, max);
      FewerInPrefix(events, max);
      if Acceptable(before, max) {
        AnsweredExactly(before, last, max);
        LastAgreesExactly(events, max);
      }
    }
  }

  /** Those among the events that are not known and did not come before, in order. */
  function News(known: seq<Event>, events: seq<Event>): seq<Event> {
    if events == [] then []
    else
      var before, last := events[..|events| - 1], events[|events| - 1];
      News(known, before) + if last in known || last in before then [] else [last]
  }

  /** Of a batch that goes through after others, exactly the new events are kept. */
  lemma {:induction false} KeptAreTheNews(known: seq<Event>, events: seq<Event>, max: nat)
    requires IngestBatch(EMPTY, known, max).Batch?
    requires IngestBatch(IngestBatch(EMPTY, known, max).ledger, events, max).Batch?
    ensures Kept(events, IngestBatch(IngestBatch(EMPTY, known, max).ledger, events, max).decisions) == News(known, events)
  {
    if events != [] {
      var n := |events| - 1;
      var l := IngestBatch(EMPTY, known, max).ledger;
      KeptAreTheNews(known, events[..n], max);
      BatchConcat(EMPTY, known, events[..n], max);
      AnsweredExactly(known + events[..n], events[n], max);
      var r := IngestBatch(l, events, max);
      assert r.decisions[..n] == IngestBatch(l, events[..n], max).decisions;
    }
  }

  /** Each key once. */
  ghost predicate Once(events: seq<Event>) {
    forall i, j :: 0 <= i < j < |events| ==> events[i].operation != events[j].operation
  }

  lemma NewOperation(known: seq<Event>, last: Event, max: nat)
    requires Acceptable(known + [last], max)
    ensures Acceptable(known, max) && (last !in known ==> Unused(known, last.operation))
  {
    assert (known + [last])[..|known|] == known;
    FewerInPrefix(known + [last], max);
    LastAgreesExactly(known + [last], max);
  }

  lemma OnceMore(events: seq<Event>, e: Event)
    requires Once(events) && Unused(events, e.operation)
    ensures Once(events + [e])
  {
  }

  /** With the news, every event is there; and no operation twice, if the known ones had none twice. */
  lemma {:induction false} NewsAddOnce(known: seq<Event>, events: seq<Event>, max: nat)
    requires Acceptable(known + events, max)
    ensures forall e :: e in News(known, events) <==> e in events && e !in known
    ensures Once(known) ==> Once(known + News(known, events))
  {
    if events == [] {
      assert known + News(known, events) == known;
    } else {
      var before, last := events[..|events| - 1], events[|events| - 1];
      assert known + events == known + before + [last];
      NewOperation(known + before, last, max);
      NewsAddOnce(known, before, max);
      assert events == before + [last];
      if last !in known && last !in before {
        var all := known + News(known, before);
        assert known + News(known, events) == all + [last];
        assert Unused(all, last.operation);
        if Once(known) {
          OnceMore(all, last);
        }
      } else {
        assert News(known, before) + [] == News(known, before);
      }
    }
  }
}
