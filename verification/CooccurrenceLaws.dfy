/** What many additions, one trim and one deletion leave of a co-occurrence graph: src/graph/cooccurrence-graph.ts. */
module CooccurrenceLaws {
  import opened Chains
  import opened CooccurrenceGraphs
  import opened Options

  // ---------------------------------------------------------------- weights of repeated pairs

  ghost function Power(d: real, n: nat): real {
    if n == 0 then 1.0 else d * Power(d, n - 1)
  }

  /** 1 + d + .. + d^(n-1). */
  ghost function PowerSum(d: real, n: nat): real {
    if n == 0 then 0.0 else PowerSum(d, n - 1) + Power(d, n - 1)
  }

  lemma {:induction false} PowerSumShifts(d: real, n: nat)
    ensures PowerSum(d, n + 1) == PowerSum(d, n) * d + 1.0
  {
    if n > 0 {
      PowerSumShifts(d, n - 1);
      calc {
        PowerSum(d, n + 1);
        PowerSum(d, n) + Power(d, n);
        PowerSum(d, n - 1) * d + 1.0 + d * Power(d, n - 1);
        (PowerSum(d, n - 1) + Power(d, n - 1)) * d + 1.0;
      }
    }
  }

  lemma {:induction false} PowerIsPositive(d: real, n: nat)
    requires d >= 0.0
    ensures Power(d, n) >= 0.0 && (d > 0.0 ==> Power(d, n) > 0.0)
  {
    if n > 0 {
      PowerIsPositive(d, n - 1);
    }
  }

  /** How heavy n additions make an edge that is not trimmed. */
  ghost function Strength(l: Limits, n: nat): real {
    if PowerSum(l.decayFactor, n) < l.maxEdgeWeight then PowerSum(l.decayFactor, n) else l.maxEdgeWeight
  }

  /** Beyond the cap, decaying the cap and adding one does not come below it. */
  lemma CapHolds(l: Limits, n: nat)
    requires Sensible(l) && PowerSum(l.decayFactor, n) >= l.maxEdgeWeight
    ensures l.maxEdgeWeight * l.decayFactor + 1.0 >= l.maxEdgeWeight
  {
    var d, max, sum := l.decayFactor, l.maxEdgeWeight, PowerSum(l.decayFactor, n);
    PowerSumShifts(d, n);
    PowerIsPositive(d, n);
    assert sum * d + 1.0 >= sum;
    assert (sum - max) * (1.0 - d) >= 0.0;
  }

  /** One more addition to an edge that n have raised. */
  lemma StrengthGrows(l: Limits, neighbours: Neighbours, b: NodeId, now: int, n: nat)
    requires Sensible(l) && n > 0 && b in neighbours && neighbours[b].weight == Strength(l, n)
    ensures Bumped(l, neighbours, b, now) == Edge(Strength(l, n + 1), now)
  {
    PowerSumShifts(l.decayFactor, n);
    PowerIsPositive(l.decayFactor, n);
    if PowerSum(l.decayFactor, n) >= l.maxEdgeWeight {
      CapHolds(l, n);
    }
  }

  lemma FirstStrength(l: Limits)
    requires Sensible(l)
    ensures Strength(l, 1) == 1.0
  {
    assert Power(l.decayFactor, 0) == 1.0 && PowerSum(l.decayFactor, 0) == 0.0;
  }

  /** Each addition makes the edge strictly heavier exactly until the cap is reached, unless all is forgotten. */
  lemma StrengthRises(l: Limits, n: nat)
    requires Sensible(l) && n > 0
    ensures 1.0 <= Strength(l, n) <= Strength(l, n + 1) <= l.maxEdgeWeight
    ensures Strength(l, n) < Strength(l, n + 1) <==> l.decayFactor > 0.0 && Strength(l, n) < l.maxEdgeWeight
  {
    PowerIsPositive(l.decayFactor, n);
    SumFromOne(l.decayFactor, n);
    if l.decayFactor == 0.0 {
      assert Power(0.0, n) == 0.0;
    }
  }

  lemma {:induction false} SumFromOne(d: real, n: nat)
    requires d >= 0.0 && n > 0
    ensures PowerSum(d, n) >= 1.0
  {
    PowerIsPositive(d, n - 1);
    if n > 1 {
      SumFromOne(d, n - 1);
    }
  }

  /** A pair that was added, and when. */
  datatype Addition = Addition(left: NodeId, right: NodeId, now: int)

  predicate OfPair(add: Addition, a: NodeId, b: NodeId) {
    (add.left == a && add.right == b) || (add.left == b && add.right == a)
  }

  ghost predicate AddedAt(l: Limits, graphs: seq<Adjacency>, adds: seq<Addition>, i: nat)
    requires i < |adds| < |graphs|
  {
    adds[i].left != adds[i].right && PairAdded(l, graphs[i], adds[i].left, adds[i].right, adds[i].now, graphs[i + 1])
  }

  /** Each graph comes from the one before by adding a pair. */
  ghost predicate History(l: Limits, graphs: seq<Adjacency>, adds: seq<Addition>) {
    |graphs| == |adds| + 1 && forall i {:trigger AddedAt(l, graphs, adds, i)} :: 0 <= i < |adds| ==> AddedAt(l, graphs, adds, i)
  }

  /** How often the pair was added, in either order. */
  function Times(adds: seq<Addition>, a: NodeId, b: NodeId): nat {
    if adds == [] then 0
    else Times(adds[..|adds| - 1], a, b) + if OfPair(adds[|adds| - 1], a, b) then 1 else 0
  }

  function LastTime(adds: seq<Addition>, a: NodeId, b: NodeId): int
    requires Times(adds, a, b) > 0
  {
    var last := adds[|adds| - 1];
    if OfPair(last, a, b) then last.now else LastTime(adds[..|adds| - 1], a, b)
  }

  predicate BothWays(adj: Adjacency, a: NodeId, b: NodeId) {
    Linked(adj, a, b) && Linked(adj, b, a)
  }

  predicate StillThere(graphs: seq<Adjacency>, adds: seq<Addition>, a: NodeId, b: NodeId, i: nat)
    requires |graphs| == |adds| + 1 && i <= |adds|
  {
    Times(adds[..i], a, b) > 0 ==> BothWays(graphs[i], a, b)
  }

  /** Once it was added, the pair has not been trimmed. */
  ghost predicate NeverTrimmed(graphs: seq<Adjacency>, adds: seq<Addition>, a: NodeId, b: NodeId)
    requires |graphs| == |adds| + 1
  {
    forall i {:trigger StillThere(graphs, adds, a, b, i)} :: 0 <= i <= |adds| ==> StillThere(graphs, adds, a, b, i)
  }

  /** Both edges are what the additions so far make them; there is none before the first. */
  ghost predicate Weighs(l: Limits, adj: Adjacency, adds: seq<Addition>, a: NodeId, b: NodeId) {
    var n := Times(adds, a, b);
    if n == 0 then !Linked(adj, a, b) && !Linked(adj, b, a)
    else BothWays(adj, a, b) && adj[a][b] == adj[b][a] == Edge(Strength(l, n), LastTime(adds, a, b))
  }

  /** An increment changes no edge but its own, except by trimming; its own gets its new weight. */
  lemma IncrementKeeps(l: Limits, before: Adjacency, c: NodeId, d: NodeId, now: int, after: Adjacency, v: NodeId, u: NodeId)
    requires Sensible(l) && Fine(l, before) && c != d && Incremented(l, before, c, d, now, after)
    requires Linked(after, v, u)
    ensures if v == c && u == d then after[v][u] == Bumped(l, NeighboursOf(before, c), d, now)
            else Linked(before, v, u) && after[v][u] == before[v][u]
  {
    var neighbours := NeighboursOf(before, c);
    var touched := before[c := neighbours[d := Bumped(l, neighbours, d, now)]];
    assert d in touched[c];
    TrimmedIsCapped(l, touched, c, Newest(neighbours, d), after);
    assert Within(after[v], touched[v]);
  }

  /** Adding another pair leaves these edges as they are, if they stay. */
  lemma OthersKeep(l: Limits, before: Adjacency, add: Addition, after: Adjacency, v: NodeId, u: NodeId)
    requires Sensible(l) && Fine(l, before) && add.left != add.right && !OfPair(add, v, u)
    requires PairAdded(l, before, add.left, add.right, add.now, after) && Linked(after, v, u)
    ensures Linked(before, v, u) && after[v][u] == before[v][u]
  {
    if add.left != "" && add.right != "" {
      var mid :| Incremented(l, before, add.left, add.right, add.now, mid) && Incremented(l, mid, add.right, add.left, add.now, after);
      IncrementedIsFine(l, before, add.left, add.right, add.now, mid);
      IncrementKeeps(l, mid, add.right, add.left, add.now, after, v, u);
      IncrementKeeps(l, before, add.left, add.right, add.now, mid, v, u);
    }
  }

  lemma PairAddedIsFine(l: Limits, before: Adjacency, add: Addition, after: Adjacency)
    requires Sensible(l) && Fine(l, before) && add.left != add.right
    requires PairAdded(l, before, add.left, add.right, add.now, after)
    ensures Fine(l, after)
  {
    if add.left != "" && add.right != "" {
      var mid :| Incremented(l, before, add.left, add.right, add.now, mid) && Incremented(l, mid, add.right, add.left, add.now, after);
      IncrementedIsFine(l, before, add.left, add.right, add.now, mid);
      IncrementedIsFine(l, mid, add.right, add.left, add.now, after);
    }
  }

  /** The first addition of a pair, if it is not trimmed at once. */
  lemma FirstAddition(l: Limits, before: Adjacency, a: NodeId, b: NodeId, now: int, after: Adjacency)
    requires Sensible(l) && Fine(l, before) && a != b && a != "" && b != ""
    requires !Linked(before, a, b) && !Linked(before, b, a) && PairAdded(l, before, a, b, now, after) && BothWays(after, a, b)
    ensures after[a][b] == after[b][a] == Edge(1.0, now)
  {
    var mid :| Incremented(l, before, a, b, now, mid) && Incremented(l, mid, b, a, now, after);
    IncrementedIsFine(l, before, a, b, now, mid);
    IncrementKeeps(l, mid, b, a, now, after, a, b);
    IncrementKeeps(l, before, a, b, now, mid, a, b);
    IncrementKeeps(l, mid, b, a, now, after, b, a);
    if Linked(mid, b, a) {
      IncrementKeeps(l, before, a, b, now, mid, b, a);
    }
  }

  /** Raising an edge that is there sets that edge and nothing else. */
  lemma Raised(l: Limits, before: Adjacency, a: NodeId, b: NodeId, now: int, after: Adjacency)
    requires Capped(l, before) && Linked(before, a, b) && Incremented(l, before, a, b, now, after)
    ensures after == before[a := before[a][b := Bumped(l, before[a], b, now)]]
  {
    var more := before[a][b := Bumped(l, before[a], b, now)];
    assert more.Keys == before[a].Keys;
  }

  /** Each later addition of a pair. */
  lemma LaterAddition(l: Limits, before: Adjacency, a: NodeId, b: NodeId, now: int, after: Adjacency, n: nat)
    requires Sensible(l) && Fine(l, before) && a != b && a != "" && b != "" && n > 0
    requires BothWays(before, a, b) && before[a][b].weight == before[b][a].weight == Strength(l, n)
    requires PairAdded(l, before, a, b, now, after)
    ensures BothWays(after, a, b) && after[a][b] == after[b][a] == Edge(Strength(l, n + 1), now)
  {
    var mid :| Incremented(l, before, a, b, now, mid) && Incremented(l, mid, b, a, now, after);
    IncrementedIsFine(l, before, a, b, now, mid);
    Raised(l, before, a, b, now, mid);
    assert mid[b] == before[b];
    Raised(l, mid, b, a, now, after);
    StrengthGrows(l, before[a], b, now, n);
    StrengthGrows(l, before[b], a, now, n);
  }

  /** One more addition of the pair. */
  lemma WeighsAgain(l: Limits, before: Adjacency, adds: seq<Addition>, add: Addition, after: Adjacency, a: NodeId, b: NodeId)
    requires Sensible(l) && Fine(l, before) && a != b && a != "" && b != "" && OfPair(add, a, b)
    requires Weighs(l, before, adds, a, b) && PairAdded(l, before, add.left, add.right, add.now, after)
    requires BothWays(after, a, b)
    ensures after[a][b] == after[b][a] == Edge(Strength(l, Times(adds, a, b) + 1), add.now)
  {
    if Times(adds, a, b) == 0 {
      FirstAddition(l, before, add.left, add.right, add.now, after);
      FirstStrength(l);
    } else {
      LaterAddition(l, before, add.left, add.right, add.now, after, Times(adds, a, b));
    }
  }

  lemma TimesMore(adds: seq<Addition>, add: Addition, a: NodeId, b: NodeId)
    ensures Times(adds + [add], a, b) == Times(adds, a, b) + if OfPair(add, a, b) then 1 else 0
    ensures OfPair(add, a, b) ==> LastTime(adds + [add], a, b) == add.now
    ensures !OfPair(add, a, b) && Times(adds, a, b) > 0 ==> LastTime(adds + [add], a, b) == LastTime(adds, a, b)
  {
    assert (adds + [add])[..|adds|] == adds;
  }

  lemma OtherKeeps(l: Limits, before: Adjacency, add: Addition, after: Adjacency, a: NodeId, b: NodeId)
    requires Sensible(l) && Fine(l, before) && add.left != add.right && !OfPair(add, a, b)
    requires PairAdded(l, before, add.left, add.right, add.now, after)
    ensures Linked(after, a, b) ==> Linked(before, a, b) && after[a][b] == before[a][b]
  {
    if Linked(after, a, b) {
      OthersKeep(l, before, add, after, a, b);
    }
  }

  lemma WeighsStill(l: Limits, before: Adjacency, adds: seq<Addition>, add: Addition, after: Adjacency, a: NodeId, b: NodeId)
    requires Sensible(l) && Fine(l, before) && add.left != add.right && !OfPair(add, a, b)
    requires Weighs(l, before, adds, a, b) && PairAdded(l, before, add.left, add.right, add.now, after)
    requires Times(adds, a, b) > 0 ==> BothWays(after, a, b)
    ensures Weighs(l, after, adds, a, b)
  {
    OtherKeeps(l, before, add, after, a, b);
    OtherKeeps(l, before, add, after, b, a);
  }

  /** One more addition, of whatever pair. */
  lemma WeighsStep(l: Limits, before: Adjacency, adds: seq<Addition>, add: Addition, after: Adjacency, a: NodeId, b: NodeId)
    requires Sensible(l) && Fine(l, before) && a != b && a != "" && b != "" && add.left != add.right
    requires Weighs(l, before, adds, a, b) && PairAdded(l, before, add.left, add.right, add.now, after)
    requires Times(adds + [add], a, b) > 0 ==> BothWays(after, a, b)
    ensures Weighs(l, after, adds + [add], a, b)
  {
    TimesMore(adds, add, a, b);
    if OfPair(add, a, b) {
      WeighsAgain(l, before, adds, add, after, a, b);
    } else {
      WeighsStill(l, before, adds, add, after, a, b);
    }
  }

  /**
   * Whatever else is added in between, n additions of a pair that is not trimmed make both its edges weigh
   * min(max, 1 + d + .. + d^(n-1)), with the time of the last of them.
   */
  lemma {:induction false} RepeatedPairsWeigh(l: Limits, graphs: seq<Adjacency>, adds: seq<Addition>, a: NodeId, b: NodeId)
    requires Sensible(l) && History(l, graphs, adds) && Fine(l, graphs[0]) && a != b && a != "" && b != ""
    requires !Linked(graphs[0], a, b) && !Linked(graphs[0], b, a) && NeverTrimmed(graphs, adds, a, b)
    ensures Fine(l, graphs[|adds|]) && Weighs(l, graphs[|adds|], adds, a, b)
  {
    if adds != [] {
      var n := |adds| - 1;
      HistoryPrefix(l, graphs, adds, a, b);
      RepeatedPairsWeigh(l, graphs[..n + 1], adds[..n], a, b);
      assert AddedAt(l, graphs, adds, n);
      assert adds[..n] + [adds[n]] == adds && adds[..n + 1] == adds;
      assert StillThere(graphs, adds, a, b, n + 1);
      PairAddedIsFine(l, graphs[n], adds[n], graphs[n + 1]);
      WeighsStep(l, graphs[n], adds[..n], adds[n], graphs[n + 1], a, b);
    }
  }

  lemma HistoryPrefix(l: Limits, graphs: seq<Adjacency>, adds: seq<Addition>, a: NodeId, b: NodeId)
    requires adds != [] && History(l, graphs, adds)
    ensures History(l, graphs[..|adds|], adds[..|adds| - 1])
    ensures NeverTrimmed(graphs, adds, a, b) ==> NeverTrimmed(graphs[..|adds|], adds[..|adds| - 1], a, b)
  {
    var n := |adds| - 1;
    var earlier, fewer := graphs[..|adds|], adds[..n];
    forall i | 0 <= i < n
      ensures AddedAt(l, earlier, fewer, i)
    {
      assert AddedAt(l, graphs, adds, i);
    }
    if NeverTrimmed(graphs, adds, a, b) {
      forall i | 0 <= i <= n
        ensures StillThere(earlier, fewer, a, b, i)
      {
        assert fewer[..i] == adds[..i];
        assert StillThere(graphs, adds, a, b, i);
      }
    }
  }

  /** A pair added alone, to an empty graph, is never trimmed, so its weight is known after any number of additions. */
  lemma {:induction false} OnlyPairWeighs(l: Limits, graphs: seq<Adjacency>, adds: seq<Addition>, a: NodeId, b: NodeId)
    requires Sensible(l) && History(l, graphs, adds) && graphs[0] == map[] && a != b && a != "" && b != ""
    requires forall add :: add in adds ==> OfPair(add, a, b)
    ensures Fine(l, graphs[|adds|]) && Times(adds, a, b) == |adds| && Weighs(l, graphs[|adds|], adds, a, b)
    ensures adds == [] ==> graphs[|adds|] == map[]
  {
    if adds != [] {
      var n := |adds| - 1;
      var add := adds[n];
      HistoryPrefix(l, graphs, adds, a, b);
      assert forall x :: x in adds[..n] ==> x in adds;
      OnlyPairWeighs(l, graphs[..n + 1], adds[..n], a, b);
      assert AddedAt(l, graphs, adds, n) && add in adds;
      assert adds[..n] + [add] == adds;
      PairAddedIsFine(l, graphs[n], add, graphs[n + 1]);
      StaysAlone(l, graphs[n], adds[..n], add, graphs[n + 1], a, b);
      TimesMore(adds[..n], add, a, b);
      WeighsStep(l, graphs[n], adds[..n], add, graphs[n + 1], a, b);
    }
  }

  lemma TwoNamesAreOnePair(a: NodeId, b: NodeId)
    requires a != b
    ensures Pairs(Unique([a, b]), |Unique([a, b])|) == [(a, b)]
  {
    var names := [a, b];
    assert names[..1] == [a] && [a][..0] == [];
    assert Unique([]) == [];
    assert Unique([a]) == [a];
    assert Unique(names) == names;
    RowLists(names, 0, 2);
    assert Pairs(names, 0) == [];
    assert Pairs(names, 1) == Row(names, 0, 2);
  }

  /** Adding two names is adding their pair. */
  lemma AddingTwoNames(l: Limits, before: Adjacency, a: NodeId, b: NodeId, now: int, after: Adjacency)
    requires a != b && Leads(PairStep(l, now), before, Pairs(Unique([a, b]), |Unique([a, b])|), after)
    ensures PairAdded(l, before, a, b, now, after)
  {
    TwoNamesAreOnePair(a, b);
    OneStep(PairStep(l, now), before, (a, b), after);
  }

  lemma StaysAlone(l: Limits, before: Adjacency, adds: seq<Addition>, add: Addition, after: Adjacency, a: NodeId, b: NodeId)
    requires Sensible(l) && Fine(l, before) && a != b && a != "" && b != "" && OfPair(add, a, b)
    requires Times(adds, a, b) == 0 ==> before == map[]
    requires Weighs(l, before, adds, a, b) && PairAdded(l, before, add.left, add.right, add.now, after)
    ensures BothWays(after, a, b)
  {
    if Times(adds, a, b) == 0 {
      AloneIsLinked(l, add.left, add.right, add.now, after);
    } else {
      LaterAddition(l, before, add.left, add.right, add.now, after, Times(adds, a, b));
    }
  }

  lemma AloneIsLinked(l: Limits, a: NodeId, b: NodeId, now: int, after: Adjacency)
    requires Sensible(l) && a != b && a != "" && b != "" && PairAdded(l, map[], a, b, now, after)
    ensures BothWays(after, a, b)
  {
    var mid :| Incremented(l, map[], a, b, now, mid) && Incremented(l, mid, b, a, now, after);
    var w := NewEdge(l, map[], a, b, now, mid);
    assert NeighboursOf(mid, b) == map[];
    var x := NewEdge(l, mid, b, a, now, after);
  }

  // ---------------------------------------------------------------- what trimming and deleting keep

  /** a is the lighter one, or the older one of equally heavy ones. */
  predicate LighterOrOlder(a: Edge, b: Edge) {
    a.weight < b.weight || (a.weight == b.weight && a.lastUpdated <= b.lastUpdated)
  }

  /** Of a node's edges trimming keeps the heaviest, and of equally heavy ones those updated last. */
  lemma TrimmingKeepsTheHeaviest(
      l: Limits, before: Adjacency, node: NodeId, newest: Option<NodeId>, after: Adjacency, x: NodeId, y: NodeId)
    requires l.maxEdgesPerNode >= 1 && CappedBut(l, before, node) && Trimmed(l, before, node, newest, after)
    requires Linked(before, node, x) && !Linked(after, node, x) && Linked(after, node, y)
    ensures Linked(before, node, y) && LighterOrOlder(before[node][x], before[node][y])
  {
    var victims :| Overflow(l, before[node], newest, victims)
      && var dropped := DropEdges(before, node, victims);
         after == if |NeighboursOf(dropped, node)| == 0 then Remove(dropped, node) else dropped;
    DropEdgesStaysCapped(l, before, node, victims);
    NoVictimStays(l, before, node, victims);
    assert Within(after[node], before[node]);
    assert x in victims && y !in victims;
    assert GoesFirst(before[node], newest, x, y);
  }

  lemma NoVictimStays(l: Limits, before: Adjacency, node: NodeId, victims: seq<NodeId>)
    requires CappedBut(l, before, node) && node in before && |victims| < |before[node]|
    requires Distinct(victims) && forall x :: x in victims ==> x in before[node]
    ensures node in DropEdges(before, node, victims) && forall x :: x in victims ==> x !in DropEdges(before, node, victims)[node]
  {
    DropEdgesStaysCapped(l, before, node, victims);
    var left := DropEdges(before, node, victims)[node];
    DistinctCount(victims);
    var kept := before[node].Keys - (set x | x in victims);
    assert Within(left, before[node]);
    assert kept <= left.Keys && |kept| == |left.Keys|;
    SameSize(kept, left.Keys);
  }

  lemma {:induction false} DistinctCount(xs: seq<NodeId>)
    requires Distinct(xs)
    ensures |set x | x in xs| == |xs|
  {
    if xs != [] {
      var before, last := xs[..|xs| - 1], xs[|xs| - 1];
      DistinctCount(before);
      assert xs == before + [last];
      assert (set x | x in xs) == (set x | x in before) + {last};
    }
  }

  lemma SameSize(a: set<NodeId>, b: set<NodeId>)
    requires a <= b && |a| == |b|
    ensures a == b
  {
    assert b == a + (b - a);
  }

  /**
   * What is left without a node: all edges but its own and those back along them, each as it was;
   * and all other nodes, but those whose only edge went.
   */
  lemma WithoutNodeExactly(adj: Adjacency, node: NodeId)
    ensures var after := WithoutNode(adj, node);
      && (forall v, u :: Linked(after, v, u) <==> Linked(adj, v, u) && v != node && !(u == node && Linked(adj, node, v)))
      && (forall v, u :: Linked(after, v, u) ==> after[v][u] == adj[v][u])
      && (forall v :: v in after <==> v in adj && v != node && (Linked(adj, node, v) ==> exists u :: u != node && Linked(adj, v, u)))
  {
    var after := WithoutNode(adj, node);
    forall v | v in adj && v != node && Linked(adj, node, v)
      ensures |Remove(adj[v], node)| == 0 <==> !exists u :: u != node && Linked(adj, v, u)
    {
      var left := Remove(adj[v], node);
      if |left| > 0 {
        assert |left.Keys| > 0;
        var u :| u in left.Keys;
        assert u != node && Linked(adj, v, u);
      }
      if u :| u != node && Linked(adj, v, u) {
        assert u in left.Keys;
      }
    }
  }

  // ---------------------------------------------------------------- which pairs are added

  /** Where the row of the i-th of n names begins. */
  function RowStart(n: nat, i: nat): nat
    requires i <= n
  {
    if i == 0 then 0 else RowStart(n, i - 1) + (n - i)
  }

  lemma {:induction false} RowStartIs(n: nat, i: nat)
    requires i <= n
    ensures 2 * RowStart(n, i) == i * (2 * n - i - 1)
  {
    if i > 0 {
      RowStartIs(n, i - 1);
      assert (i - 1) * (2 * n - i) + 2 * (n - i) == i * (2 * n - i - 1);
    }
  }

  lemma {:induction false} RowLists(names: seq<NodeId>, i: nat, j: nat)
    requires i < j <= |names|
    ensures |Row(names, i, j)| == j - i - 1
    ensures forall k :: i < k < j ==> Row(names, i, j)[k - i - 1] == (names[i], names[k])
  {
    if j > i + 1 {
      RowLists(names, i, j - 1);
    }
  }

  /** The pair of the i-th and j-th name is in its place. */
  predicate InPlace(names: seq<NodeId>, pairs: seq<(NodeId, NodeId)>, i: nat, j: nat)
    requires i < j < |names|
  {
    var k := RowStart(|names|, i) + (j - i - 1);
    k < |pairs| && pairs[k] == (names[i], names[j])
  }

  lemma {:induction false} PairsCounted(names: seq<NodeId>, m: nat)
    requires m <= |names|
    ensures |Pairs(names, m)| == RowStart(|names|, m)
  {
    if m > 0 {
      PairsCounted(names, m - 1);
      RowLists(names, m - 1, |names|);
    }
  }

  lemma {:induction false} PairPlaced(names: seq<NodeId>, m: nat, i: nat, j: nat)
    requires i < m <= |names| && i < j < |names|
    ensures InPlace(names, Pairs(names, m), i, j)
  {
    PairsCounted(names, m - 1);
    if i < m - 1 {
      PairPlaced(names, m - 1, i, j);
    } else {
      RowLists(names, i, |names|);
      assert Row(names, i, |names|)[j - i - 1] == (names[i], names[j]);
    }
  }

  /** Each name is paired with every later name, once, in the order of the two loops: of n names, n(n-1)/2 pairs. */
  lemma PairsAreAll(names: seq<NodeId>)
    ensures var (n, pairs) := (|names|, Pairs(names, |names|));
      && 2 * |pairs| == n * (n - 1)
      && forall i, j :: 0 <= i < j < n ==> InPlace(names, pairs, i, j)
  {
    var n := |names|;
    PairsCounted(names, n);
    RowStartIs(n, n);
    assert n * (2 * n - n - 1) == n * (n - 1);
    forall i, j | 0 <= i < j < n
      ensures InPlace(names, Pairs(names, n), i, j)
    {
      PairPlaced(names, n, i, j);
    }
  }

  /** These are the first occurrences, in order. */
  ghost predicate FirstPlaces(names: seq<NodeId>, found: seq<NodeId>, places: seq<nat>) {
    && |places| == |found|
    && (forall k :: 0 <= k < |places| ==> places[k] < |names| && found[k] == names[places[k]])
    && (forall j, k :: 0 <= j < k < |places| ==> places[j] < places[k])
    && (forall i :: 0 <= i < |names| ==> (i in places <==> names[i] !in names[..i]))
  }

  /** A repeated name counts where it first occurs. */
  lemma {:induction false} UniqueKeepsTheFirst(names: seq<NodeId>) returns (places: seq<nat>)
    ensures FirstPlaces(names, Unique(names), places)
  {
    if names == [] {
      places := [];
    } else {
      var n := |names| - 1;
      places := UniqueKeepsTheFirst(names[..n]);
      OneMoreName(names, Unique(names[..n]), places);
      if names[n] !in names[..n] {
        places := places + [n];
      }
    }
  }

  lemma OneMoreName(names: seq<NodeId>, before: seq<NodeId>, places: seq<nat>)
    requires names != [] && FirstPlaces(names[..|names| - 1], before, places)
    ensures var n := |names| - 1;
      if names[n] in names[..n] then FirstPlaces(names, before, places)
      else FirstPlaces(names, before + [names[n]], places + [n])
  {
    var n := |names| - 1;
    assert forall i :: 0 <= i < n ==> names[..n][..i] == names[..i];
    forall i | 0 <= i < |names|
      ensures i in places + [n] <==> i in places || i == n
    {
    }
  }
}
