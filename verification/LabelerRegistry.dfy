/** The in-memory labeler registry keeps the latest observation: src/recommendation/labeler-discovery.ts. */
module LabelerRegistry {
  import opened Options
  import opened Timestamps

  /** A normalized observation; rest stands for its endpoint, source, verification and declared values. */
  datatype Candidate = Candidate(did: string, discoveredAt: Timestamp, rest: nat)

  type Registry = map<string, Candidate>

  datatype Op = Upsert(candidate: Candidate) | Remove(did: string) | Clear

  /** The place of a candidate's precedence digest among all digests; distinct candidates have distinct digests. */
  ghost predicate CollisionFree(rank: Candidate -> nat) {
    forall c, d :: rank(c) == rank(d) ==> c == d
  }

  /** The later observation wins; the precedence key decides between equal instants. */
  predicate Wins(rank: Candidate -> nat, c: Candidate, d: Candidate)
    requires Accepted(c.discoveredAt) && Accepted(d.discoveredAt)
  {
    var order := Compare(c.discoveredAt, d.discoveredAt);
    order > 0 || (order == 0 && rank(c) > rank(d))
  }

  lemma WinsIsTransitive(rank: Candidate -> nat, a: Candidate, b: Candidate, c: Candidate)
    requires Accepted(a.discoveredAt) && Accepted(b.discoveredAt) && Accepted(c.discoveredAt)
    requires Wins(rank, a, b) && (Wins(rank, b, c) || b == c)
    ensures Wins(rank, a, c)
  {
    CompareIsTotal(a.discoveredAt, b.discoveredAt);
    CompareIsTotal(b.discoveredAt, c.discoveredAt);
    CompareIsTotal(a.discoveredAt, c.discoveredAt);
    CompareIsTransitive(c.discoveredAt, b.discoveredAt, a.discoveredAt);
  }

  lemma WinsIsTotal(rank: Candidate -> nat, a: Candidate, b: Candidate)
    requires CollisionFree(rank) && Accepted(a.discoveredAt) && Accepted(b.discoveredAt) && a != b
    ensures Wins(rank, a, b) <==> !Wins(rank, b, a)
  {
    CompareIsTotal(a.discoveredAt, b.discoveredAt);
  }

  /** The candidates a registry was offered for one DID since that DID was last removed. */
  function Since(ops: seq<Op>, did: string): set<Candidate> {
    if ops == [] then {}
    else
      var before := Since(ops[..|ops| - 1], did);
      match ops[|ops| - 1]
      case Upsert(c) => if c.did == did then before + {c} else before
      case Remove(d) => if d == did then {} else before
      case Clear => {}
  }

  /** c is the winner among these candidates. */
  ghost predicate Best(rank: Candidate -> nat, among: set<Candidate>, c: Candidate) {
    && c in among
    && forall d :: d in among ==>
      Accepted(c.discoveredAt) && Accepted(d.discoveredAt) && (d == c || Wins(rank, c, d))
  }

  /** No candidate was observed at a later moment, and none of the same moment has a greater precedence digest. */
  ghost predicate Latest(rank: Candidate -> nat, among: set<Candidate>, c: Candidate) {
    && c in among
    && forall d :: d in among ==>
      && InRange(c.discoveredAt) && InRange(d.discoveredAt)
      && !Before(Utc(c.discoveredAt), Utc(d.discoveredAt))
      && (Utc(c.discoveredAt) == Utc(d.discoveredAt) ==> rank(c) >= rank(d))
  }

  /** The winner is the latest observation: winning means a later moment, or the greater digest of the same moment. */
  lemma BestIsLatest(rank: Candidate -> nat, among: set<Candidate>, c: Candidate)
    requires CollisionFree(rank) && forall d :: d in among ==> Accepted(d.discoveredAt)
    ensures Best(rank, among, c) <==> Latest(rank, among, c)
  {
    forall d | c in among && d in among
      ensures d == c || Wins(rank, c, d) <==>
              !Before(Utc(c.discoveredAt), Utc(d.discoveredAt)) &&
              (Utc(c.discoveredAt) == Utc(d.discoveredAt) ==> rank(c) >= rank(d))
    {
      CompareIsChronology(c.discoveredAt, d.discoveredAt);
    }
  }

  /** The registry holds, for each DID offered since its removal, the winner of what was offered, and nothing else. */
  ghost predicate HoldsWinners(rank: Candidate -> nat, ops: seq<Op>, registry: Registry) {
    forall did ::
      && (did in registry <==> Since(ops, did) != {})
      && (did in registry ==> registry[did].did == did && Best(rank, Since(ops, did), registry[did]))
  }

  lemma BestIsUnique(rank: Candidate -> nat, among: set<Candidate>, c: Candidate, d: Candidate)
    requires CollisionFree(rank) && Best(rank, among, c) && Best(rank, among, d)
    ensures c == d
  {
    if c != d {
      WinsIsTotal(rank, c, d);
    }
  }

  /** What was offered decides what is held: the order of the offers and repeated offers do not matter. */
  lemma OffersDecide(rank: Candidate -> nat, ops: seq<Op>, ops': seq<Op>, registry: Registry, registry': Registry)
    requires CollisionFree(rank) && HoldsWinners(rank, ops, registry) && HoldsWinners(rank, ops', registry')
    requires forall did :: Since(ops, did) == Since(ops', did)
    ensures registry == registry'
  {
    forall did | did in registry
      ensures did in registry' && registry[did] == registry'[did]
    {
      BestIsUnique(rank, Since(ops, did), registry[did], registry'[did]);
    }
    assert registry.Keys == registry'.Keys;
  }

  predicate OnlyUpserts(ops: seq<Op>) {
    forall op :: op in ops ==> op.Upsert?
  }

  lemma {:induction false} SinceOfUpserts(ops: seq<Op>, did: string, c: Candidate)
    requires OnlyUpserts(ops)
    ensures c in Since(ops, did) <==> c.did == did && Upsert(c) in ops
  {
    if ops != [] {
      var before, last := ops[..|ops| - 1], ops[|ops| - 1];
      assert ops == before + [last];
      SinceOfUpserts(before, did, c);
    }
  }

  /** Registries offered the same set of observations, in any order and however often, are the same. */
  lemma OrderAndRepetitionDoNotMatter(
      rank: Candidate -> nat, ops: seq<Op>, ops': seq<Op>, registry: Registry, registry': Registry)
    requires CollisionFree(rank) && HoldsWinners(rank, ops, registry) && HoldsWinners(rank, ops', registry')
    requires OnlyUpserts(ops) && OnlyUpserts(ops') && forall op :: op in ops <==> op in ops'
    ensures registry == registry'
  {
    forall did
      ensures Since(ops, did) == Since(ops', did)
    {
      forall c
        ensures c in Since(ops, did) <==> c in Since(ops', did)
      {
        SinceOfUpserts(ops, did, c);
        SinceOfUpserts(ops', did, c);
      }
    }
    OffersDecide(rank, ops, ops', registry, registry');
  }

  /** One offer keeps the winner of all offers so far. */
  lemma OfferKeepsWinner(rank: Candidate -> nat, among: set<Candidate>, existing: Candidate, c: Candidate)
    requires CollisionFree(rank) && Best(rank, among, existing) && Accepted(c.discoveredAt)
    ensures Best(rank, among + {c}, if Wins(rank, c, existing) then c else existing)
  {
    if Wins(rank, c, existing) {
      forall d | d in among
        ensures Wins(rank, c, d)
      {
        WinsIsTransitive(rank, c, existing, d);
      }
    } else if c != existing {
      WinsIsTotal(rank, c, existing);
    }
  }

  /** Forgetting a DID forgets its offers, and leaves the winners of the others. */
  lemma RemovalKeepsWinners(rank: Candidate -> nat, ops: seq<Op>, registry: Registry, did: string)
    requires HoldsWinners(rank, ops, registry)
    ensures HoldsWinners(rank, ops + [Remove(did)], registry - {did})
  {
    assert (ops + [Remove(did)])[..|ops|] == ops;
    assert forall d :: Since(ops + [Remove(did)], d) == if d == did then {} else Since(ops, d);
  }

  class InMemoryLabelerRegistry {
    var candidates: Registry
    const rank: Candidate -> nat
    ghost var ops: seq<Op>

    ghost predicate Valid()
      reads this
    {
      CollisionFree(rank) && HoldsWinners(rank, ops, candidates)
    }

    constructor (rank: Candidate -> nat)
      requires CollisionFree(rank)
      ensures Valid() && this.rank == rank && candidates == map[] && ops == []
    {
      this.rank := rank;
      candidates := map[];
      ops := [];
    }

    /** Returns what the registry holds for the DID afterwards. */
    method Upsert(incoming: Candidate) returns (held: Candidate)
      requires Valid() && Accepted(incoming.discoveredAt)
      modifies this
      ensures Valid() && ops == old(ops) + [Op.Upsert(incoming)]
      ensures candidates == old(candidates)[incoming.did := held]
      ensures Latest(rank, Since(ops, incoming.did), held)
    {
      ghost var before := candidates;
      Added(incoming);
      ops := ops + [Op.Upsert(incoming)];
      if incoming.did in candidates {
        var existing := candidates[incoming.did];
        OfferKeepsWinner(rank, Since(old(ops), incoming.did), existing, incoming);
        var timestampOrder := Compare(incoming.discoveredAt, existing.discoveredAt);
        var replace := timestampOrder > 0 || (timestampOrder == 0 && rank(incoming) > rank(existing));
        if !replace {
          assert candidates == before[incoming.did := existing];
          BestIsLatest(rank, Since(ops, incoming.did), existing);
          return existing;
        }
      }
      candidates := candidates[incoming.did := incoming];
      BestIsLatest(rank, Since(ops, incoming.did), incoming);
      return incoming;
    }

    lemma Added(c: Candidate)
      ensures forall did :: Since(ops + [Op.Upsert(c)], did) == if c.did == did then Since(ops, did) + {c} else Since(ops, did)
    {
      assert (ops + [Op.Upsert(c)])[..|ops|] == ops;
    }

    method Get(did: string) returns (candidate: Option<Candidate>)
      requires Valid()
      ensures candidate.None? <==> Since(ops, did) == {}
      ensures candidate.Some? ==> Latest(rank, Since(ops, did), candidate.value)
    {
      candidate := if did in candidates then Some(candidates[did]) else None;
      if did in candidates {
        BestIsLatest(rank, Since(ops, did), candidates[did]);
      }
    }

    method Remove(did: string) returns (existed: bool)
      requires Valid()
      modifies this
      ensures Valid() && ops == old(ops) + [Op.Remove(did)]
      ensures existed == (did in old(candidates)) && candidates == old(candidates) - {did}
    {
      existed := did in candidates;
      RemovalKeepsWinners(rank, ops, candidates, did);
      candidates := candidates - {did};
      ops := ops + [Op.Remove(did)];
    }

    method Clear()
      requires Valid()
      modifies this
      ensures Valid() && ops == old(ops) + [Op.Clear] && candidates == map[]
    {
      candidates := map[];
      ops := ops + [Op.Clear];
    }
  }
}
