/** The weighted co-occurrence graph with capped degrees and snapshots: src/graph/cooccurrence-graph.ts. */
module CooccurrenceGraphs {
  import opened Chains
  import opened Options

  type NodeId = string

  datatype Edge = Edge(weight: real, lastUpdated: int)

  type Neighbours = map<NodeId, Edge>
  type Adjacency = map<NodeId, Neighbours>

  datatype Limits = Limits(maxEdgeWeight: real, decayFactor: real, maxEdgesPerNode: nat)

  datatype NodeSnapshot = NodeSnapshot(node: NodeId, neighbours: seq<(NodeId, Edge)>)

  // ---------------------------------------------------------------- edges

  /** The order in which trimming removes edges. */
  predicate NoHeavier(a: Edge, b: Edge) {
    a.weight < b.weight || (a.weight == b.weight && a.lastUpdated <= b.lastUpdated)
  }

  /**
   * x is trimmed no later than y. The program's sort is stable and its maps list keys as they were inserted,
   * so among equals an edge that was just added comes last.
   */
  predicate GoesFirst(neighbours: Neighbours, newest: Option<NodeId>, x: NodeId, y: NodeId)
    requires x in neighbours && y in neighbours
  {
    NoHeavier(neighbours[x], neighbours[y]) &&
    (newest == Some(x) && x != y ==> !NoHeavier(neighbours[y], neighbours[x]))
  }

  /** The edge that setting an edge to b adds, if any. */
  function Newest(neighbours: Neighbours, b: NodeId): Option<NodeId> {
    if b in neighbours then None else Some(b)
  }

  function Bumped(l: Limits, neighbours: Neighbours, b: NodeId, now: int): Edge {
    if b in neighbours then
      var raised := neighbours[b].weight * l.decayFactor + 1.0;
      Edge(if raised < l.maxEdgeWeight then raised else l.maxEdgeWeight, now)
    else Edge(1.0, now)
  }

  function NeighboursOf(adj: Adjacency, v: NodeId): Neighbours {
    if v in adj then adj[v] else map[]
  }

  /** m without the key x. */
  function Remove<V>(m: map<NodeId, V>, x: NodeId): (r: map<NodeId, V>)
    ensures forall u :: u in r <==> u in m && u != x
    ensures forall u :: u in r ==> r[u] == m[u]
    ensures |r| == if x in m then |m| - 1 else |m|
  {
    var r := map u | u in m && u != x :: m[u];
    assert r.Keys == m.Keys - {x};
    assert |r.Keys| == |r| && |m.Keys| == |m|;
    r
  }

  /** Removes node's edge to x and x's edge back, and x itself if that leaves it without edges. */
  function DropEdge(adj: Adjacency, node: NodeId, x: NodeId): Adjacency
    requires node in adj
  {
    var kept := adj[node := Remove(adj[node], x)];
    if x !in kept then kept else Reduced(kept, x, Remove(kept[x], node))
  }

  /** v is left with these neighbours, or leaves if there are none. */
  function Reduced(adj: Adjacency, v: NodeId, neighbours: Neighbours): Adjacency {
    if |neighbours| == 0 then Remove(adj, v) else adj[v := neighbours]
  }

  /** Removes the listed edges of node one after the other. */
  function DropEdges(adj: Adjacency, node: NodeId, xs: seq<NodeId>): Adjacency {
    if xs == [] then adj
    else
      var before := DropEdges(adj, node, xs[..|xs| - 1]);
      if node in before then DropEdge(before, node, xs[|xs| - 1]) else before
  }

  predicate Distinct(xs: seq<NodeId>) {
    xs == [] || (xs[|xs| - 1] !in xs[..|xs| - 1] && Distinct(xs[..|xs| - 1]))
  }

  lemma {:induction false} DistinctPrefix(xs: seq<NodeId>, n: nat)
    requires Distinct(xs) && n <= |xs|
    ensures Distinct(xs[..n])
  {
    if n < |xs| {
      DistinctPrefix(xs[..|xs| - 1], n);
      assert xs[..|xs| - 1][..n] == xs[..n];
    } else {
      assert xs[..n] == xs;
    }
  }

  /** The victims are as many as the overflow, and each goes before the edges that are kept. */
  ghost predicate Overflow(l: Limits, neighbours: Neighbours, newest: Option<NodeId>, victims: seq<NodeId>) {
    && |victims| == |neighbours| - l.maxEdgesPerNode
    && Distinct(victims)
    && (forall x :: x in victims ==> x in neighbours)
    && (forall x, y :: x in victims && y in neighbours && y !in victims ==> GoesFirst(neighbours, newest, x, y))
  }

  /** What trimming node's edges may leave. Among equals only the newest has its place. */
  ghost predicate Trimmed(l: Limits, before: Adjacency, node: NodeId, newest: Option<NodeId>, after: Adjacency) {
    if |NeighboursOf(before, node)| <= l.maxEdgesPerNode then after == before
    else
      exists victims ::
        && Overflow(l, before[node], newest, victims)
        && var dropped := DropEdges(before, node, victims);
           after == if |NeighboursOf(dropped, node)| == 0 then Remove(dropped, node) else dropped
  }

  ghost predicate Incremented(l: Limits, before: Adjacency, a: NodeId, b: NodeId, now: int, after: Adjacency) {
    var neighbours := NeighboursOf(before, a);
    Trimmed(l, before[a := neighbours[b := Bumped(l, neighbours, b, now)]], a, Newest(neighbours, b), after)
  }

  // ---------------------------------------------------------------- the invariant

  /** Limits under which the graph keeps its promises. */
  predicate Sensible(l: Limits) {
    l.maxEdgeWeight >= 1.0 && 0.0 <= l.decayFactor <= 1.0 && l.maxEdgesPerNode >= 1
  }

  /** Every node but perhaps one has an edge and no more than the cap. */
  ghost predicate CappedBut(l: Limits, adj: Adjacency, node: NodeId) {
    forall v :: v in adj && v != node ==> 0 < |adj[v]| <= l.maxEdgesPerNode
  }

  ghost predicate Capped(l: Limits, adj: Adjacency) {
    forall v :: v in adj ==> 0 < |adj[v]| <= l.maxEdgesPerNode
  }

  predicate EdgeFine(l: Limits, v: NodeId, u: NodeId, e: Edge) {
    v != u && 0.0 < e.weight <= l.maxEdgeWeight
  }

  /** No self-loops, and weights in (0, max]. */
  ghost predicate EdgesFine(l: Limits, adj: Adjacency) {
    forall v, u :: v in adj && u in adj[v] ==> EdgeFine(l, v, u, adj[v][u])
  }

  ghost predicate Fine(l: Limits, adj: Adjacency) {
    Capped(l, adj) && EdgesFine(l, adj)
  }

  predicate Within(a: Neighbours, b: Neighbours) {
    forall u :: u in a ==> u in b && a[u] == b[u]
  }

  /** Every edge of a is an edge of b. */
  ghost predicate Subgraph(a: Adjacency, b: Adjacency) {
    a.Keys <= b.Keys && forall v {:trigger Within(a[v], b[v])} :: v in a ==> Within(a[v], b[v])
  }

  lemma WithinCount(a: Neighbours, b: Neighbours)
    requires Within(a, b)
    ensures |a| <= |b|
    ensures |a| == |b| ==> a == b
  {
    assert a.Keys <= b.Keys;
    assert b.Keys == a.Keys + (b.Keys - a.Keys);
    if |a| == |b| {
      assert b.Keys - a.Keys == {};
    }
  }

  /** What dropping an edge leaves of node v. */
  lemma DropEdgeAt(adj: Adjacency, node: NodeId, x: NodeId, v: NodeId)
    requires node in adj && v in DropEdge(adj, node, x)
    ensures v in adj
    ensures DropEdge(adj, node, x)[v] ==
      if v == node then Remove(adj[v], x) else if v == x then Remove(adj[v], node) else adj[v]
    ensures v != node && v == x ==> |Remove(adj[v], node)| > 0
  {
    assert Remove(Remove(adj[node], node), node) == Remove(adj[node], node);
  }

  lemma DropEdgeStaysCapped(l: Limits, adj: Adjacency, node: NodeId, x: NodeId)
    requires CappedBut(l, adj, node) && node in adj && x in adj[node] && |adj[node]| > 1
    ensures CappedBut(l, DropEdge(adj, node, x), node) && Subgraph(DropEdge(adj, node, x), adj)
    ensures node in DropEdge(adj, node, x) && DropEdge(adj, node, x)[node] == Remove(adj[node], x)
  {
    var after := DropEdge(adj, node, x);
    forall v | v in after
      ensures v in adj && Within(after[v], adj[v]) && (v != node ==> 0 < |after[v]| <= l.maxEdgesPerNode)
    {
      DropEdgeAt(adj, node, x, v);
    }
    NodeStays(adj, node, x);
    DropEdgeAt(adj, node, x, node);
  }

  lemma NodeStays(adj: Adjacency, node: NodeId, x: NodeId)
    requires node in adj && x in adj[node] && |adj[node]| > 1
    ensures node in DropEdge(adj, node, x)
  {
    assert Remove(Remove(adj[node], node), node) == Remove(adj[node], node);
  }

  lemma SubgraphTransitive(a: Adjacency, b: Adjacency, c: Adjacency)
    requires Subgraph(a, b) && Subgraph(b, c)
    ensures Subgraph(a, c)
  {
    forall v | v in a
      ensures Within(a[v], c[v])
    {
      assert Within(a[v], b[v]) && Within(b[v], c[v]);
    }
  }

  /** node keeps exactly its edges outside xs. */
  ghost predicate Keeps(before: Neighbours, xs: seq<NodeId>, after: Neighbours) {
    |after| == |before| - |xs| && forall u :: u in before && u !in xs ==> u in after
  }

  lemma {:induction false} DropEdgesStaysCapped(l: Limits, adj: Adjacency, node: NodeId, xs: seq<NodeId>)
    requires CappedBut(l, adj, node) && node in adj && |xs| < |adj[node]|
    requires Distinct(xs) && forall x :: x in xs ==> x in adj[node]
    ensures CappedBut(l, DropEdges(adj, node, xs), node) && Subgraph(DropEdges(adj, node, xs), adj)
    ensures node in DropEdges(adj, node, xs) && Keeps(adj[node], xs, DropEdges(adj, node, xs)[node])
  {
    if xs != [] {
      var n := |xs| - 1;
      DropEdgesStaysCapped(l, adj, node, xs[..n]);
      var before := DropEdges(adj, node, xs[..n]);
      assert xs[n] in adj[node] && xs[n] !in xs[..n];
      DropEdgeStaysCapped(l, before, node, xs[n]);
      SubgraphTransitive(DropEdge(before, node, xs[n]), before, adj);
      assert forall u :: u in xs[..n] || u == xs[n] ==> u in xs;
    }
  }

  /** Trimming one overfull node restores the cap everywhere, adds nothing, and leaves that node exactly the cap. */
  lemma TrimmedIsCapped(l: Limits, before: Adjacency, node: NodeId, newest: Option<NodeId>, after: Adjacency)
    requires l.maxEdgesPerNode >= 1 && CappedBut(l, before, node) && node in before && |before[node]| > 0
    requires Trimmed(l, before, node, newest, after)
    ensures Capped(l, after) && Subgraph(after, before) && node in after
    ensures |after[node]| == if |before[node]| > l.maxEdgesPerNode then l.maxEdgesPerNode else |before[node]|
  {
    if |before[node]| > l.maxEdgesPerNode {
      var victims :| Overflow(l, before[node], newest, victims)
        && var dropped := DropEdges(before, node, victims);
           after == if |NeighboursOf(dropped, node)| == 0 then Remove(dropped, node) else dropped;
      DropEdgesStaysCapped(l, before, node, victims);
    }
  }

  lemma BumpedIsFine(l: Limits, neighbours: Neighbours, b: NodeId, now: int)
    requires Sensible(l) && (b in neighbours ==> neighbours[b].weight > 0.0)
    ensures 1.0 <= Bumped(l, neighbours, b, now).weight <= l.maxEdgeWeight
  {
  }

  lemma SubgraphIsFine(l: Limits, a: Adjacency, b: Adjacency)
    requires Subgraph(a, b) && EdgesFine(l, b)
    ensures EdgesFine(l, a)
  {
    forall v, u | v in a && u in a[v]
      ensures EdgeFine(l, v, u, a[v][u])
    {
      assert Within(a[v], b[v]);
      assert EdgeFine(l, v, u, b[v][u]);
    }
  }

  lemma IncrementedIsFine(l: Limits, before: Adjacency, a: NodeId, b: NodeId, now: int, after: Adjacency)
    requires Sensible(l) && Fine(l, before) && a != b && Incremented(l, before, a, b, now, after)
    ensures Fine(l, after)
  {
    var neighbours := NeighboursOf(before, a);
    assert b in neighbours ==> EdgeFine(l, a, b, neighbours[b]);
    BumpedIsFine(l, neighbours, b, now);
    var more := neighbours[b := Bumped(l, neighbours, b, now)];
    var touched := before[a := more];
    assert b in more;
    assert EdgesFine(l, touched);
    TrimmedIsCapped(l, touched, a, Newest(neighbours, b), after);
    SubgraphIsFine(l, after, touched);
  }

  // ---------------------------------------------------------------- whole operations

  /** What adding one pair may leave: an edge each way, each followed by a trim. Empty names are skipped. */
  ghost predicate PairAdded(l: Limits, before: Adjacency, a: NodeId, b: NodeId, now: int, after: Adjacency) {
    if a == "" || b == "" then after == before
    else exists mid :: Incremented(l, before, a, b, now, mid) && Incremented(l, mid, b, a, now, after)
  }

  ghost function PairStep(l: Limits, now: int): (Adjacency, (NodeId, NodeId), Adjacency) -> bool {
    (before, pair: (NodeId, NodeId), after) => PairAdded(l, before, pair.0, pair.1, now, after)
  }

  /** The pairs of one name with the names after it, up to j. */
  function Row(names: seq<NodeId>, i: nat, j: nat): seq<(NodeId, NodeId)>
    requires i < j <= |names|
  {
    if j == i + 1 then [] else Row(names, i, j - 1) + [(names[i], names[j - 1])]
  }

  /** The pairs whose first name is among the first i. */
  function Pairs(names: seq<NodeId>, i: nat): seq<(NodeId, NodeId)>
    requires i <= |names|
  {
    if i == 0 then [] else Pairs(names, i - 1) + Row(names, i - 1, |names|)
  }

  /** First occurrences, in order. */
  function Unique(names: seq<NodeId>): (r: seq<NodeId>)
    ensures forall x :: x in r <==> x in names
  {
    if names == [] then []
    else
      var rest := Unique(names[..|names| - 1]);
      var last := names[|names| - 1];
      assert names == names[..|names| - 1] + [last];
      if last in rest then rest else rest + [last]
  }

  lemma {:induction false} UniqueOnce(names: seq<NodeId>, i: nat, j: nat)
    requires i < j < |Unique(names)|
    ensures Unique(names)[i] != Unique(names)[j]
  {
    var rest := Unique(names[..|names| - 1]);
    if j < |rest| {
      UniqueOnce(names[..|names| - 1], i, j);
    } else {
      assert rest[i] in rest;
    }
  }

  /** Without the edges from xs to node, and without those of xs that have no other edge. */
  function WithoutEdgesTo(adj: Adjacency, node: NodeId, xs: set<NodeId>): Adjacency {
    map v | v in adj && !(v in xs && |Remove(adj[v], node)| == 0) :: if v in xs then Remove(adj[v], node) else adj[v]
  }

  /** Without node: its edges go, and so do the edges back and whoever has none left. */
  function WithoutNode(adj: Adjacency, node: NodeId): Adjacency {
    if node !in adj then adj else Remove(WithoutEdgesTo(adj, node, adj[node].Keys), node)
  }

  lemma WithoutNodeIsFine(l: Limits, adj: Adjacency, node: NodeId)
    requires Fine(l, adj)
    ensures Fine(l, WithoutNode(adj, node))
    ensures node !in WithoutNode(adj, node)
  {
    var after := WithoutNode(adj, node);
    forall v | v in after
      ensures 0 < |after[v]| <= l.maxEdgesPerNode && Within(after[v], adj[v])
    {
    }
    SubgraphIsFine(l, after, adj);
  }

  lemma {:induction false} FirstExists(neighbours: Neighbours, newest: Option<NodeId>, left: set<NodeId>)
    requires left != {} && left <= neighbours.Keys
    ensures exists x :: x in left && forall y :: y in left ==> GoesFirst(neighbours, newest, x, y)
    decreases |left|
  {
    var z :| z in left;
    if left == {z} {
      assert forall y :: y in left ==> GoesFirst(neighbours, newest, z, y);
    } else {
      FirstExists(neighbours, newest, left - {z});
      var x :| x in left - {z} && forall y :: y in left - {z} ==> GoesFirst(neighbours, newest, x, y);
      var w := if GoesFirst(neighbours, newest, x, z) then x else z;
      assert forall y :: y in left ==> y == z || y in left - {z};
      assert forall y :: y in left ==> GoesFirst(neighbours, newest, w, y);
    }
  }

  lemma VictimsOverflow(l: Limits, neighbours: Neighbours, newest: Option<NodeId>, sorted: seq<NodeId>, overflow: nat)
    requires overflow == |neighbours| - l.maxEdgesPerNode && |sorted| == |neighbours|
    requires Distinct(sorted) && forall x :: x in sorted <==> x in neighbours
    requires forall i, j :: 0 <= i < j < |sorted| ==> GoesFirst(neighbours, newest, sorted[i], sorted[j])
    ensures Overflow(l, neighbours, newest, sorted[..overflow])
  {
    var victims := sorted[..overflow];
    DistinctPrefix(sorted, overflow);
    forall k | 0 <= k < overflow
      ensures sorted[k] in victims
    {
      assert sorted[k] == victims[k];
    }
    forall x, y | x in victims && y in neighbours && y !in victims
      ensures GoesFirst(neighbours, newest, x, y)
    {
      var i :| 0 <= i < overflow && victims[i] == x;
      var j :| 0 <= j < |sorted| && sorted[j] == y;
    }
  }

  /** These keys are sorted, and go before the ones that are left. */
  ghost predicate SortedSoFar(neighbours: Neighbours, newest: Option<NodeId>, sorted: seq<NodeId>, left: set<NodeId>) {
    && left <= neighbours.Keys && (forall x :: x in sorted <==> x in neighbours && x !in left)
    && |sorted| + |left| == |neighbours| && Distinct(sorted)
    && (forall i, j :: 0 <= i < j < |sorted| ==> GoesFirst(neighbours, newest, sorted[i], sorted[j]))
    && (forall i, y :: 0 <= i < |sorted| && y in left ==> GoesFirst(neighbours, newest, sorted[i], y))
  }

  lemma SortedMore(neighbours: Neighbours, newest: Option<NodeId>, sorted: seq<NodeId>, left: set<NodeId>, x: NodeId)
    requires SortedSoFar(neighbours, newest, sorted, left)
    requires x in left && forall y :: y in left ==> GoesFirst(neighbours, newest, x, y)
    ensures SortedSoFar(neighbours, newest, sorted + [x], left - {x})
  {
    assert (sorted + [x])[..|sorted|] == sorted;
  }

  /** A node over the cap is trimmed once its victims are gone, and itself with its last edge. */
  lemma TrimmedByDropping(l: Limits, before: Adjacency, node: NodeId, newest: Option<NodeId>, victims: seq<NodeId>)
    requires node in before && Overflow(l, before[node], newest, victims) && |before[node]| > l.maxEdgesPerNode
    ensures var dropped := DropEdges(before, node, victims);
      Trimmed(l, before, node, newest, if |NeighboursOf(dropped, node)| == 0 then Remove(dropped, node) else dropped)
  {
  }

  lemma DropNext(adj: Adjacency, node: NodeId, victims: seq<NodeId>, i: nat)
    requires i < |victims|
    ensures var done := DropEdges(adj, node, victims[..i]);
      DropEdges(adj, node, victims[..i + 1]) == if node in done then DropEdge(done, node, victims[i]) else done
  {
    assert victims[..i + 1][..i] == victims[..i];
  }

  lemma ReduceNext(adj: Adjacency, node: NodeId, xs: set<NodeId>, x: NodeId)
    requires x !in xs
    ensures var done := WithoutEdgesTo(adj, node, xs);
      WithoutEdgesTo(adj, node, xs + {x}) == if x in done then Reduced(done, x, Remove(done[x], node)) else done
  {
  }

  lemma NoPairs(names: seq<NodeId>)
    requires |names| < 2
    ensures Pairs(names, |names|) == []
  {
  }

  // ---------------------------------------------------------------- snapshots

  /** The entries list each neighbour once or more, in some order, and nothing else. */
  ghost predicate ListsNeighbours(neighbours: Neighbours, entries: seq<(NodeId, Edge)>) {
    && (forall u :: u in neighbours ==> (u, neighbours[u]) in entries)
    && (forall i :: 0 <= i < |entries| ==> entries[i].0 in neighbours && neighbours[entries[i].0] == entries[i].1)
  }

  predicate ListedSomewhere(nodes: seq<NodeSnapshot>, v: NodeId) {
    exists i :: 0 <= i < |nodes| && nodes[i].node == v
  }

  ghost predicate ListedRight(adj: Adjacency, entry: NodeSnapshot) {
    entry.node in adj && ListsNeighbours(adj[entry.node], entry.neighbours)
  }

  /** The snapshot lists each node of the graph with its neighbours, in some order. */
  ghost predicate Lists(adj: Adjacency, nodes: seq<NodeSnapshot>) {
    && (forall v {:trigger ListedSomewhere(nodes, v)} :: v in adj ==> ListedSomewhere(nodes, v))
    && (forall i {:trigger ListedRight(adj, nodes[i])} :: 0 <= i < |nodes| ==> ListedRight(adj, nodes[i]))
  }

  /** What upserting the first j neighbours of node i leaves, after all earlier nodes, if nothing is trimmed. */
  function Upserted(nodes: seq<NodeSnapshot>, i: nat, j: nat): Adjacency
    requires i < |nodes| && j <= |nodes[i].neighbours|
    decreases i, j
  {
    if j > 0 then
      var (u, e) := nodes[i].neighbours[j - 1];
      Upsert(Upserted(nodes, i, j - 1), nodes[i].node, u, e)
    else if i > 0 then Upserted(nodes, i - 1, |nodes[i - 1].neighbours|)
    else map[]
  }

  function Upsert(adj: Adjacency, v: NodeId, u: NodeId, e: Edge): Adjacency {
    adj[v := NeighboursOf(adj, v)[u := e]]
  }

  /** The part of the graph whose listing has been upserted lies in the graph and has no empty nodes. */
  lemma {:induction false} UpsertedWithin(adj: Adjacency, nodes: seq<NodeSnapshot>, i: nat, j: nat)
    requires Lists(adj, nodes) && i < |nodes| && j <= |nodes[i].neighbours|
    ensures Subgraph(Upserted(nodes, i, j), adj)
    ensures forall v :: v in Upserted(nodes, i, j) ==> |Upserted(nodes, i, j)[v]| > 0
    decreases i, j
  {
    if j > 0 {
      UpsertedWithin(adj, nodes, i, j - 1);
      var before := Upserted(nodes, i, j - 1);
      var (u, e) := nodes[i].neighbours[j - 1];
      var v := nodes[i].node;
      assert ListedRight(adj, nodes[i]);
      assert v in before ==> Within(before[v], adj[v]);
      assert u in Upserted(nodes, i, j)[v];
    } else if i > 0 {
      UpsertedWithin(adj, nodes, i - 1, |nodes[i - 1].neighbours|);
    }
  }

  /** Everything listed so far is there. */
  lemma {:induction false} UpsertedHolds(adj: Adjacency, nodes: seq<NodeSnapshot>, i: nat, j: nat, k: nat, m: nat)
    requires Lists(adj, nodes) && i < |nodes| && j <= |nodes[i].neighbours|
    requires k <= i && m < (if k == i then j else |nodes[k].neighbours|)
    ensures nodes[k].node in Upserted(nodes, i, j)
    ensures nodes[k].neighbours[m].0 in Upserted(nodes, i, j)[nodes[k].node]
    decreases i, j
  {
    if j > 0 {
      if k < i || m < j - 1 {
        UpsertedHolds(adj, nodes, i, j - 1, k, m);
      }
    } else {
      UpsertedHolds(adj, nodes, i - 1, |nodes[i - 1].neighbours|, k, m);
    }
  }

  /** What upserting the first i nodes of the listing leaves if nothing is trimmed. */
  function RebuiltTo(nodes: seq<NodeSnapshot>, i: nat): Adjacency
    requires i <= |nodes|
  {
    if i == 0 then map[] else Upserted(nodes, i - 1, |nodes[i - 1].neighbours|)
  }

  function Rebuilt(nodes: seq<NodeSnapshot>): Adjacency {
    RebuiltTo(nodes, |nodes|)
  }

  /** While the graph respects the cap, upserting its next edge overfills nothing. */
  lemma UpsertFits(l: Limits, adj: Adjacency, nodes: seq<NodeSnapshot>, i: nat, j: nat)
    requires Lists(adj, nodes) && Capped(l, adj) && i < |nodes| && 0 < j <= |nodes[i].neighbours|
    ensures |NeighboursOf(Upserted(nodes, i, j), nodes[i].node)| <= l.maxEdgesPerNode
  {
    var v := nodes[i].node;
    UpsertedWithin(adj, nodes, i, j);
    assert Within(Upserted(nodes, i, j)[v], adj[v]);
    WithinCount(Upserted(nodes, i, j)[v], adj[v]);
  }

  /** What setting an edge and trimming may leave. */
  ghost predicate EdgeSet(l: Limits, before: Adjacency, v: NodeId, u: NodeId, e: Edge, after: Adjacency) {
    Trimmed(l, Upsert(before, v, u, e), v, Newest(NeighboursOf(before, v), u), after)
  }

  lemma EdgeSetIsCapped(l: Limits, before: Adjacency, v: NodeId, u: NodeId, e: Edge, after: Adjacency)
    requires l.maxEdgesPerNode >= 1 && Capped(l, before) && EdgeSet(l, before, v, u, e, after)
    ensures Capped(l, after)
  {
    var upserted := Upsert(before, v, u, e);
    assert u in upserted[v];
    TrimmedIsCapped(l, upserted, v, Newest(NeighboursOf(before, v), u), after);
  }

  lemma UpsertNext(l: Limits, adj: Adjacency, nodes: seq<NodeSnapshot>, i: nat, j: nat, before: Adjacency, after: Adjacency)
    requires Lists(adj, nodes) && i < |nodes| && j < |nodes[i].neighbours| && Capped(l, adj) && before == Upserted(nodes, i, j)
    requires EdgeSet(l, before, nodes[i].node, nodes[i].neighbours[j].0, nodes[i].neighbours[j].1, after)
    ensures after == Upserted(nodes, i, j + 1)
  {
    UpsertFits(l, adj, nodes, i, j + 1);
  }

  lemma EdgeRebuilt(adj: Adjacency, nodes: seq<NodeSnapshot>, v: NodeId, u: NodeId)
    requires Lists(adj, nodes) && v in adj && u in adj[v]
    ensures v in Rebuilt(nodes) && u in Rebuilt(nodes)[v]
  {
    assert ListedSomewhere(nodes, v);
    var k :| 0 <= k < |nodes| && nodes[k].node == v;
    assert ListedRight(adj, nodes[k]);
    var m :| 0 <= m < |nodes[k].neighbours| && nodes[k].neighbours[m] == (u, adj[v][u]);
    UpsertedHolds(adj, nodes, |nodes| - 1, |nodes[|nodes| - 1].neighbours|, k, m);
  }

  lemma RebuiltWithin(adj: Adjacency, nodes: seq<NodeSnapshot>)
    requires Lists(adj, nodes)
    ensures Subgraph(Rebuilt(nodes), adj)
    ensures forall v :: v in Rebuilt(nodes) ==> |Rebuilt(nodes)[v]| > 0
  {
    if nodes != [] {
      UpsertedWithin(adj, nodes, |nodes| - 1, |nodes[|nodes| - 1].neighbours|);
    }
  }

  lemma NodeRebuilt(adj: Adjacency, nodes: seq<NodeSnapshot>, v: NodeId)
    requires Lists(adj, nodes) && v in adj && |adj[v]| > 0
    ensures v in Rebuilt(nodes) && Rebuilt(nodes)[v] == adj[v]
  {
    var all := Rebuilt(nodes);
    RebuiltWithin(adj, nodes);
    assert |adj[v].Keys| > 0;
    var some :| some in adj[v].Keys;
    EdgeRebuilt(adj, nodes, v, some);
    forall u | u in adj[v]
      ensures u in all[v]
    {
      EdgeRebuilt(adj, nodes, v, u);
    }
    assert Within(all[v], adj[v]);
    assert all[v].Keys == adj[v].Keys;
  }

  /** Upserting a whole listing rebuilds the graph, short of nodes without edges. */
  lemma UpsertedRebuilds(adj: Adjacency, nodes: seq<NodeSnapshot>)
    requires Lists(adj, nodes) && forall v :: v in adj ==> |adj[v]| > 0
    ensures Rebuilt(nodes) == adj
  {
    RebuiltWithin(adj, nodes);
    forall v | v in adj
      ensures v in Rebuilt(nodes) && Rebuilt(nodes)[v] == adj[v]
    {
      NodeRebuilt(adj, nodes, v);
    }
    assert Rebuilt(nodes).Keys == adj.Keys;
  }

  // ---------------------------------------------------------------- the graph object

  class CooccurrenceGraph {
    const limits: Limits
    var adjacency: Adjacency

    constructor (limits: Limits)
      ensures this.limits == limits && adjacency == map[]
    {
      this.limits := limits;
      adjacency := map[];
    }

    /** The keys of a node's edges, lightest first; among equal edges the newest last, the others in any order. */
    static method Sorted(neighbours: Neighbours, newest: Option<NodeId>) returns (sorted: seq<NodeId>)
      ensures |sorted| == |neighbours| && forall x :: x in sorted <==> x in neighbours
      ensures Distinct(sorted)
      ensures forall i, j :: 0 <= i < j < |sorted| ==> GoesFirst(neighbours, newest, sorted[i], sorted[j])
    {
      sorted := [];
      var left := neighbours.Keys;
      while left != {}
        invariant SortedSoFar(neighbours, newest, sorted, left)
        decreases |left|
      {
        FirstExists(neighbours, newest, left);
        var x :| x in left && forall y :: y in left ==> GoesFirst(neighbours, newest, x, y);
        SortedMore(neighbours, newest, sorted, left, x);
        sorted := sorted + [x];
        left := left - {x};
      }
    }

    /** Drops the first edges of the sorted ones. */
    method DropVictims(node: NodeId, sorted: seq<NodeId>, overflow: nat)
      requires overflow <= |sorted|
      modifies this
      ensures adjacency == DropEdges(old(adjacency), node, sorted[..overflow])
    {
      ghost var before, victims := adjacency, sorted[..overflow];
      for index := 0 to overflow
        invariant adjacency == DropEdges(before, node, victims[..index])
      {
        DropNext(before, node, victims, index);
        if node in adjacency {
          adjacency := DropEdge(adjacency, node, sorted[index]);
        }
      }
      assert victims[..overflow] == victims;
    }

    method TrimEdgesForNode(node: NodeId, newest: Option<NodeId>)
      modifies this
      ensures Trimmed(limits, old(adjacency), node, newest, adjacency)
    {
      if node !in adjacency || |adjacency[node]| <= limits.maxEdgesPerNode {
        return;
      }
      var neighbours := adjacency[node];
      var sorted := Sorted(neighbours, newest);
      var overflow := |neighbours| - limits.maxEdgesPerNode;
      VictimsOverflow(limits, neighbours, newest, sorted, overflow);
      TrimmedByDropping(limits, adjacency, node, newest, sorted[..overflow]);
      DropVictims(node, sorted, overflow);
      if |NeighboursOf(adjacency, node)| == 0 {
        adjacency := Remove(adjacency, node);
      }
    }

    method IncrementEdge(a: NodeId, b: NodeId, now: int)
      modifies this
      ensures Incremented(limits, old(adjacency), a, b, now, adjacency)
    {
      var neighbours := NeighboursOf(adjacency, a);
      var edge;
      if b in neighbours {
        var weight := neighbours[b].weight * limits.decayFactor;
        edge := Edge(if weight + 1.0 < limits.maxEdgeWeight then weight + 1.0 else limits.maxEdgeWeight, now);
      } else {
        edge := Edge(1.0, now);
      }
      assert edge == Bumped(limits, neighbours, b, now);
      adjacency := adjacency[a := neighbours[b := edge]];
      TrimEdgesForNode(a, Newest(neighbours, b));
    }

    method AddPair(left: NodeId, right: NodeId, now: int)
      requires left != right
      modifies this
      ensures PairAdded(limits, old(adjacency), left, right, now, adjacency)
      ensures Sensible(limits) && Fine(limits, old(adjacency)) ==> Fine(limits, adjacency)
    {
      if left == "" || right == "" {
        return;
      }
      ghost var before := adjacency;
      IncrementEdge(left, right, now);
      ghost var mid := adjacency;
      IncrementEdge(right, left, now);
      if Sensible(limits) && Fine(limits, before) {
        IncrementedIsFine(limits, before, left, right, now, mid);
        IncrementedIsFine(limits, mid, right, left, now, adjacency);
      }
    }

    /** One turn of the outer loop: the i-th name with all names after it. */
    method AddRow(unique: seq<NodeId>, i: nat, now: int)
      requires i < |unique| && forall j :: i < j < |unique| ==> unique[i] != unique[j]
      modifies this
      ensures Leads(PairStep(limits, now), old(adjacency), Row(unique, i, |unique|), adjacency)
      ensures Sensible(limits) && Fine(limits, old(adjacency)) ==> Fine(limits, adjacency)
    {
      ghost var before, step := adjacency, PairStep(limits, now);
      NoStep(step, before);
      for j := i + 1 to |unique|
        invariant Leads(step, before, Row(unique, i, j), adjacency)
        invariant Sensible(limits) && Fine(limits, before) ==> Fine(limits, adjacency)
      {
        ghost var mid := adjacency;
        AddPair(unique[i], unique[j], now);
        OneMore(step, before, Row(unique, i, j), mid, (unique[i], unique[j]), adjacency);
      }
    }

    method AddCooccurrence(nodes: seq<NodeId>, now: int)
      modifies this
      ensures Leads(PairStep(limits, now), old(adjacency), Pairs(Unique(nodes), |Unique(nodes)|), adjacency)
      ensures Sensible(limits) && Fine(limits, old(adjacency)) ==> Fine(limits, adjacency)
    {
      var unique := Unique(nodes);
      ghost var before, step := adjacency, PairStep(limits, now);
      NoStep(step, before);
      if |unique| < 2 {
        NoPairs(unique);
        return;
      }
      for i := 0 to |unique|
        invariant Leads(step, before, Pairs(unique, i), adjacency)
        invariant Sensible(limits) && Fine(limits, before) ==> Fine(limits, adjacency)
      {
        ghost var mid := adjacency;
        forall j | i < j < |unique|
          ensures unique[i] != unique[j]
        {
          UniqueOnce(nodes, i, j);
        }
        AddRow(unique, i, now);
        ThenMore(step, before, Pairs(unique, i), mid, Row(unique, i, |unique|), adjacency);
      }
    }

    method DeleteNode(node: NodeId)
      modifies this
      ensures adjacency == WithoutNode(old(adjacency), node)
      ensures Fine(limits, old(adjacency)) ==> Fine(limits, adjacency)
    {
      if Fine(limits, adjacency) {
        WithoutNodeIsFine(limits, adjacency, node);
      }
      if node !in adjacency {
        return;
      }
      var left := adjacency[node].Keys;
      ghost var all, before := left, adjacency;
      assert WithoutEdgesTo(before, node, all - left) == before;
      while left != {}
        invariant left <= all
        invariant adjacency == WithoutEdgesTo(before, node, all - left)
        decreases |left|
      {
        var x :| x in left;
        ReduceNext(before, node, all - left, x);
        assert all - (left - {x}) == (all - left) + {x};
        if x in adjacency {
          adjacency := Reduced(adjacency, x, Remove(adjacency[x], node));
        }
        left := left - {x};
      }
      assert all - left == all;
      adjacency := Remove(adjacency, node);
    }

    method UpsertEdge(node: NodeId, neighbour: NodeId, edge: Edge)
      modifies this
      ensures EdgeSet(limits, old(adjacency), node, neighbour, edge, adjacency)
    {
      var neighbours := NeighboursOf(adjacency, node);
      adjacency := adjacency[node := neighbours[neighbour := edge]];
      TrimEdgesForNode(node, Newest(neighbours, neighbour));
    }

    /** Lists a node's edges; the order, by name in the program, is left open here. */
    static method ListNeighbours(neighbours: Neighbours) returns (entries: seq<(NodeId, Edge)>)
      ensures ListsNeighbours(neighbours, entries) && |entries| == |neighbours|
    {
      entries := [];
      var left := neighbours.Keys;
      while left != {}
        invariant left <= neighbours.Keys && |entries| + |left| == |neighbours.Keys|
        invariant forall u :: u in neighbours && u !in left ==> (u, neighbours[u]) in entries
        invariant forall i :: 0 <= i < |entries| ==> entries[i].0 in neighbours && neighbours[entries[i].0] == entries[i].1
        decreases |left|
      {
        var u :| u in left;
        entries := entries + [(u, neighbours[u])];
        left := left - {u};
      }
    }

    method ToSnapshot() returns (nodes: seq<NodeSnapshot>)
      ensures Lists(adjacency, nodes) && |nodes| == |adjacency|
    {
      nodes := [];
      var left := adjacency.Keys;
      while left != {}
        invariant left <= adjacency.Keys && |nodes| + |left| == |adjacency.Keys|
        invariant forall v :: v in adjacency && v !in left ==> ListedSomewhere(nodes, v)
        invariant forall i :: 0 <= i < |nodes| ==> ListedRight(adjacency, nodes[i])
        decreases |left|
      {
        var v :| v in left;
        var entries := ListNeighbours(adjacency[v]);
        ghost var before := nodes;
        nodes := nodes + [NodeSnapshot(v, entries)];
        assert nodes[|before|].node == v;
        forall w | w in adjacency && w !in left - {v}
          ensures ListedSomewhere(nodes, w)
        {
          if w != v {
            var i :| 0 <= i < |before| && before[i].node == w;
            assert nodes[i].node == w;
          }
        }
        left := left - {v};
      }
    }

    /** Any snapshot gives a graph within the cap; the listing of a graph gives that graph exactly when it was within it. */
    static method FromSnapshot(limits: Limits, nodes: seq<NodeSnapshot>, ghost listed: Adjacency) returns (graph: CooccurrenceGraph)
      ensures fresh(graph) && graph.limits == limits
      ensures limits.maxEdgesPerNode >= 1 ==> Capped(limits, graph.adjacency)
      ensures limits.maxEdgesPerNode >= 1 && Lists(listed, nodes) ==> (graph.adjacency == listed <==> Capped(limits, listed))
    {
      graph := new CooccurrenceGraph(limits);
      ghost var fits := Lists(listed, nodes) && Capped(limits, listed);
      for i := 0 to |nodes|
        invariant fresh(graph) && graph.limits == limits
        invariant limits.maxEdgesPerNode >= 1 ==> Capped(limits, graph.adjacency)
        invariant fits ==> graph.adjacency == RebuiltTo(nodes, i)
      {
        var entries := nodes[i].neighbours;
        for j := 0 to |entries|
          invariant fresh(graph) && graph.limits == limits
          invariant limits.maxEdgesPerNode >= 1 ==> Capped(limits, graph.adjacency)
          invariant fits ==> graph.adjacency == Upserted(nodes, i, j)
        {
          ghost var before := graph.adjacency;
          graph.UpsertEdge(nodes[i].node, entries[j].0, entries[j].1);
          if limits.maxEdgesPerNode >= 1 {
            EdgeSetIsCapped(limits, before, nodes[i].node, entries[j].0, entries[j].1, graph.adjacency);
          }
          if fits {
            UpsertNext(limits, listed, nodes, i, j, before, graph.adjacency);
          }
        }
      }
      if fits {
        UpsertedRebuilds(listed, nodes);
      }
    }
  }

  /** Every graph kept by the operations survives a snapshot. */
  method SnapshotRoundTrip(graph: CooccurrenceGraph) returns (copy: CooccurrenceGraph)
    requires Sensible(graph.limits) && Fine(graph.limits, graph.adjacency)
    ensures copy.limits == graph.limits && copy.adjacency == graph.adjacency
  {
    var nodes := graph.ToSnapshot();
    copy := CooccurrenceGraph.FromSnapshot(graph.limits, nodes, graph.adjacency);
  }

  // ---------------------------------------------------------------- symmetry

  predicate Linked(adj: Adjacency, v: NodeId, u: NodeId) {
    u in NeighboursOf(adj, v)
  }

  /** Every edge has an edge back. */
  ghost predicate Symmetric(adj: Adjacency) {
    forall v, u :: Linked(adj, v, u) ==> Linked(adj, u, v)
  }

  /** As many edges as allowed, all of them heavier than a new edge. */
  predicate Saturated(l: Limits, neighbours: Neighbours) {
    |neighbours| == l.maxEdgesPerNode && forall u :: u in neighbours ==> neighbours[u].weight > 1.0
  }

  ghost predicate NoneLater(neighbours: Neighbours, now: int) {
    forall u :: u in neighbours ==> neighbours[u].lastUpdated <= now
  }

  /** node has lost its edge to w, and w its edge back; the others keep theirs. */
  ghost predicate EdgeGone(before: Adjacency, node: NodeId, w: NodeId, after: Adjacency) {
    forall v :: NeighboursOf(after, v) ==
      if v == node then Remove(NeighboursOf(before, v), w)
      else if v == w then Remove(NeighboursOf(before, v), node)
      else NeighboursOf(before, v)
  }

  lemma DropEdgeGone(adj: Adjacency, node: NodeId, x: NodeId)
    requires node in adj && x != node
    ensures EdgeGone(adj, node, x, DropEdge(adj, node, x))
  {
    var after := DropEdge(adj, node, x);
    forall v
      ensures NeighboursOf(after, v) ==
        if v == node then Remove(NeighboursOf(adj, v), x)
        else if v == x then Remove(NeighboursOf(adj, v), node)
        else NeighboursOf(adj, v)
    {
      if v == x {
        NothingLeft(Remove(NeighboursOf(adj, x), node));
      }
    }
  }

  lemma NothingLeft(neighbours: Neighbours)
    ensures |neighbours| == 0 ==> neighbours == map[]
  {
  }

  lemma MoreByOne(neighbours: Neighbours, c: NodeId, e: Edge)
    requires c !in neighbours
    ensures |neighbours[c := e]| == |neighbours| + 1
  {
    var more := neighbours[c := e];
    assert more.Keys == neighbours.Keys + {c};
  }

  /** With one edge too many, trimming takes away one edge both ways, the first in order. */
  lemma TrimsOne(l: Limits, before: Adjacency, node: NodeId, newest: Option<NodeId>, after: Adjacency) returns (w: NodeId)
    requires node in before && node !in before[node] && |before[node]| == l.maxEdgesPerNode + 1 > 1
    requires Trimmed(l, before, node, newest, after)
    ensures w in before[node] && EdgeGone(before, node, w, after)
    ensures forall y :: y in before[node] && y != w ==> GoesFirst(before[node], newest, w, y)
  {
    var victims :| Overflow(l, before[node], newest, victims)
      && var dropped := DropEdges(before, node, victims);
         after == if |NeighboursOf(dropped, node)| == 0 then Remove(dropped, node) else dropped;
    w := victims[0];
    assert victims == [w] && w in victims;
    assert victims[..0] == [] && DropEdges(before, node, []) == before;
    DropEdgeGone(before, node, w);
    assert |Remove(before[node], w)| > 0;
  }

  /** What a new edge from a to b leaves: nothing is trimmed, or w is. */
  lemma NewEdge(l: Limits, before: Adjacency, a: NodeId, b: NodeId, now: int, after: Adjacency) returns (w: Option<NodeId>)
    requires l.maxEdgesPerNode >= 1 && a != b && Incremented(l, before, a, b, now, after)
    requires var neighbours := NeighboursOf(before, a); |neighbours| <= l.maxEdgesPerNode && a !in neighbours && b !in neighbours
    ensures var neighbours := NeighboursOf(before, a);
      var more := before[a := neighbours[b := Edge(1.0, now)]];
      && (w.None? <==> |neighbours| < l.maxEdgesPerNode)
      && (w.None? ==> after == more)
      && (w.Some? ==> w.value in more[a] && EdgeGone(more, a, w.value, after))
      && (Saturated(l, neighbours) ==> w == Some(b))
      && (w == Some(b) && NoneLater(neighbours, now) ==> Saturated(l, neighbours))
  {
    var neighbours := NeighboursOf(before, a);
    var more := before[a := neighbours[b := Edge(1.0, now)]];
    MoreByOne(neighbours, b, Edge(1.0, now));
    if |neighbours| < l.maxEdgesPerNode {
      w := None;
    } else {
      var x := TrimsOne(l, more, a, Some(b), after);
      w := Some(x);
      if x == b {
        forall u | u in neighbours
          ensures GoesFirst(more[a], Some(b), b, u)
        {
        }
      } else {
        assert GoesFirst(more[a], Some(b), x, b);
      }
    }
  }

  /** Raising an edge that is there trims nothing. */
  lemma OldEdge(l: Limits, before: Adjacency, a: NodeId, b: NodeId, now: int, after: Adjacency)
    requires Incremented(l, before, a, b, now, after)
    requires b in NeighboursOf(before, a) && |NeighboursOf(before, a)| <= l.maxEdgesPerNode
    ensures forall v, u :: Linked(after, v, u) <==> Linked(before, v, u)
  {
    var neighbours := NeighboursOf(before, a);
    var more := neighbours[b := Bumped(l, neighbours, b, now)];
    assert more.Keys == neighbours.Keys;
  }

  /** When a new edge is trimmed at once: exactly when its node was saturated. */
  lemma NewEdgeGoesExactly(l: Limits, before: Adjacency, a: NodeId, b: NodeId, now: int, after: Adjacency)
    requires l.maxEdgesPerNode >= 1 && a != b && Incremented(l, before, a, b, now, after)
    requires Capped(l, before) && NoneLater(NeighboursOf(before, a), now)
    requires a !in NeighboursOf(before, a) && b !in NeighboursOf(before, a)
    ensures !Linked(after, a, b) <==> Saturated(l, NeighboursOf(before, a))
  {
    var w := NewEdge(l, before, a, b, now, after);
  }

  /** Where an edge is new, what its second half leaves once the first half is in. */
  lemma SecondHalf(l: Limits, mid: Adjacency, a: NodeId, b: NodeId, now: int, after: Adjacency)
    requires l.maxEdgesPerNode >= 1 && a != b && Incremented(l, mid, b, a, now, after)
    requires |NeighboursOf(mid, b)| <= l.maxEdgesPerNode && NoneLater(NeighboursOf(mid, b), now)
    requires b !in NeighboursOf(mid, b) && a !in NeighboursOf(mid, b)
    requires forall v, u :: Linked(mid, v, u) && !(v == a && u == b) ==> Linked(mid, u, v)
    ensures Symmetric(after) <==> (Linked(mid, a, b) || Saturated(l, NeighboursOf(mid, b)))
  {
    var w := NewEdge(l, mid, b, a, now, after);
    var more := mid[b := NeighboursOf(mid, b)[a := Edge(1.0, now)]];
    assert forall v, u :: Linked(more, v, u) <==> Linked(mid, v, u) || (v == b && u == a);
    if w.Some? {
      assert forall v, u :: Linked(after, v, u) <==>
        Linked(more, v, u) && !(v == b && u == w.value) && !(v == w.value && u == b);
    }
    if w != Some(a) && !Linked(mid, a, b) {
      assert Linked(after, b, a) && !Linked(after, a, b);
    }
  }

  /** What the first half of a new edge leaves of the edges. */
  lemma FirstHalf(l: Limits, before: Adjacency, a: NodeId, b: NodeId, now: int, mid: Adjacency)
    requires l.maxEdgesPerNode >= 1 && a != b && Incremented(l, before, a, b, now, mid)
    requires |NeighboursOf(before, a)| <= l.maxEdgesPerNode && NoneLater(NeighboursOf(before, a), now)
    requires Symmetric(before) && !Linked(before, a, a) && !Linked(before, a, b)
    ensures NeighboursOf(mid, b) == NeighboursOf(before, b)
    ensures forall v, u :: Linked(mid, v, u) && !(v == a && u == b) ==> Linked(mid, u, v)
    ensures !Linked(mid, a, b) <==> Saturated(l, NeighboursOf(before, a))
  {
    var w := NewEdge(l, before, a, b, now, mid);
    var more := before[a := NeighboursOf(before, a)[b := Edge(1.0, now)]];
    assert forall v, u :: Linked(more, v, u) <==> Linked(before, v, u) || (v == a && u == b);
    if w.Some? {
      assert forall v, u :: Linked(mid, v, u) <==>
        Linked(more, v, u) && !(v == a && u == w.value) && !(v == w.value && u == a);
    }
    assert !Linked(before, b, a);
    assert Remove(NeighboursOf(before, b), a) == NeighboursOf(before, b);
  }

  lemma NoSelfLoop(l: Limits, adj: Adjacency, v: NodeId)
    requires EdgesFine(l, adj)
    ensures !Linked(adj, v, v)
  {
    forall u | Linked(adj, v, u)
      ensures u != v
    {
      assert EdgeFine(l, v, u, adj[v][u]);
    }
  }

  /** A pair whose edges are there keeps the edges as they are. */
  lemma OldPair(l: Limits, before: Adjacency, a: NodeId, b: NodeId, now: int, mid: Adjacency, after: Adjacency)
    requires a != b && Capped(l, before) && Linked(before, a, b) && Linked(before, b, a)
    requires Incremented(l, before, a, b, now, mid) && Incremented(l, mid, b, a, now, after)
    ensures forall v, u :: Linked(after, v, u) <==> Linked(before, v, u)
  {
    OldEdge(l, before, a, b, now, mid);
    assert NeighboursOf(mid, b) == NeighboursOf(before, b);
    OldEdge(l, mid, b, a, now, after);
  }

  /**
   * Adding a pair keeps every edge matched by one back exactly when the pair is not new, or its first name is not
   * saturated, or both names are.
   */
  lemma PairKeepsSymmetryExactly(l: Limits, before: Adjacency, a: NodeId, b: NodeId, now: int, after: Adjacency)
    requires l.maxEdgesPerNode >= 1 && Fine(l, before) && Symmetric(before) && a != b
    requires forall v :: v in before ==> NoneLater(before[v], now)
    requires PairAdded(l, before, a, b, now, after)
    ensures Symmetric(after) <==>
      a == "" || b == "" || Linked(before, a, b)
      || !Saturated(l, NeighboursOf(before, a)) || Saturated(l, NeighboursOf(before, b))
  {
    if a != "" && b != "" {
      var mid :| Incremented(l, before, a, b, now, mid) && Incremented(l, mid, b, a, now, after);
      if Linked(before, a, b) {
        OldPair(l, before, a, b, now, mid, after);
      } else {
        NoSelfLoop(l, before, a);
        NoSelfLoop(l, before, b);
        assert !Linked(before, b, a);
        FirstHalf(l, before, a, b, now, mid);
        SecondHalf(l, mid, a, b, now, after);
      }
    }
  }

  /** Deleting a node keeps symmetry. */
  lemma DeleteKeepsSymmetry(adj: Adjacency, node: NodeId)
    requires Symmetric(adj)
    ensures Symmetric(WithoutNode(adj, node))
  {
    var after := WithoutNode(adj, node);
    forall v, u | Linked(after, v, u)
      ensures Linked(after, u, v)
    {
      assert Linked(adj, v, u) && Linked(adj, u, v);
      if node in adj {
        assert v != node && (Linked(adj, node, u) <==> Linked(adj, u, node));
        assert Linked(adj, node, v) <==> Linked(adj, v, node);
      }
    }
  }

  /** Deleting a node removes every edge to it exactly when each of them was matched by an edge back. */
  lemma DeleteRemovesEdgesExactly(adj: Adjacency, node: NodeId)
    requires node in adj
    ensures (forall u :: !Linked(WithoutNode(adj, node), u, node))
      <==> (forall u :: u != node && Linked(adj, u, node) ==> Linked(adj, node, u))
  {
    var after := WithoutNode(adj, node);
    forall u
      ensures Linked(after, u, node) <==> u != node && Linked(adj, u, node) && !Linked(adj, node, u)
    {
    }
  }

  /** Symmetry is not kept: under a cap of one, a lighter edge is trimmed on one side and stays on the other. */
  lemma OneWayEdgesArise(l: Limits, before: Adjacency, now: int, after: Adjacency)
    requires l.maxEdgesPerNode == 1
    requires before == map["a" := map["b" := Edge(1.95, 2)], "b" := map["a" := Edge(1.95, 2)]]
    requires PairAdded(l, before, "a", "c", now, after)
    ensures "c" in after && "a" in after["c"] && "a" in after && "c" !in after["a"]
  {
    TwoNodes(l, before);
    OneWay(l, before, "a", "c", now, after);
  }

  lemma TwoNodes(l: Limits, before: Adjacency)
    requires l.maxEdgesPerNode == 1
    requires before == map["a" := map["b" := Edge(1.95, 2)], "b" := map["a" := Edge(1.95, 2)]]
    ensures Saturated(l, NeighboursOf(before, "a")) && NeighboursOf(before, "c") == map[]
    ensures !Linked(before, "a", "a") && !Linked(before, "a", "c")
  {
    assert before["a"].Keys == {"b"};
  }

  /** A pair with a saturated name and a name that is not in the graph leaves an edge in one direction. */
  lemma OneWay(l: Limits, before: Adjacency, a: NodeId, c: NodeId, now: int, after: Adjacency)
    requires l.maxEdgesPerNode >= 1 && a != c && a != "" && c != "" && Saturated(l, NeighboursOf(before, a)) && NeighboursOf(before, c) == map[]
    requires !Linked(before, a, a) && !Linked(before, a, c)
    requires PairAdded(l, before, a, c, now, after)
    ensures Linked(after, c, a) && a in after && !Linked(after, a, c)
  {
    var mid :| Incremented(l, before, a, c, now, mid) && Incremented(l, mid, c, a, now, after);
    SaturatedStays(l, before, a, c, now, mid);
    var x := NewEdge(l, mid, c, a, now, after);
  }

  lemma SaturatedStays(l: Limits, before: Adjacency, a: NodeId, c: NodeId, now: int, mid: Adjacency)
    requires l.maxEdgesPerNode >= 1 && a != c && Saturated(l, NeighboursOf(before, a)) && NeighboursOf(before, c) == map[]
    requires !Linked(before, a, a) && !Linked(before, a, c) && Incremented(l, before, a, c, now, mid)
    ensures NeighboursOf(mid, a) == NeighboursOf(before, a) && NeighboursOf(mid, c) == map[]
  {
    var w := NewEdge(l, before, a, c, now, mid);
  }

  /** The edge into a that such an insertion leaves stays when a is deleted. */
  lemma DeletedNodeIsStillListed(l: Limits, before: Adjacency, now: int, after: Adjacency)
    requires l.maxEdgesPerNode == 1
    requires before == map["a" := map["b" := Edge(1.95, 2)], "b" := map["a" := Edge(1.95, 2)]]
    requires PairAdded(l, before, "a", "c", now, after)
    ensures var deleted := WithoutNode(after, "a"); "a" !in deleted && Linked(deleted, "c", "a")
  {
    OneWayEdgesArise(l, before, now, after);
  }
}
