/** Community detection by in-place label propagation: src/graph/louvain.ts. */
module Louvain {
  import opened Iteration
  import opened Propagation

  type NodeId = string

  datatype Link = Link(to: NodeId, weight: real)

  /** An adjacency `Map`: its keys and, for each key, its entries, both in iteration order. */
  datatype Graph = Graph(nodes: seq<NodeId>, links: map<NodeId, seq<Link>>)

  /** No entry occurs twice. */
  predicate Distinct(nodes: seq<NodeId>) {
    nodes == [] || (nodes[|nodes| - 1] !in nodes[..|nodes| - 1] && Distinct(nodes[..|nodes| - 1]))
  }

  lemma {:induction false} DistinctEntries(nodes: seq<NodeId>, i: nat, j: nat)
    requires Distinct(nodes) && i < |nodes| && j < |nodes| && nodes[i] == nodes[j]
    ensures i == j
  {
    var last := |nodes| - 1;
    assert i < last ==> nodes[..last][i] == nodes[i];
    assert j < last ==> nodes[..last][j] == nodes[j];
    if i < last && j < last {
      DistinctEntries(nodes[..last], i, j);
    }
  }

  predicate Listed(g: Graph, v: NodeId) {
    v in g.nodes
  }

  ghost predicate WellFormed(g: Graph) {
    && Distinct(g.nodes)
    && (forall i :: 0 <= i < |g.nodes| ==> g.nodes[i] in g.links)
    && (forall v {:trigger Listed(g, v)} :: v in g.links ==> Listed(g, v))
  }

  /** Where v stands in the iteration order, which is also its first community. */
  ghost function Position(g: Graph, v: NodeId): (i: nat)
    requires WellFormed(g) && v in g.links
    ensures i < |g.nodes| && g.nodes[i] == v
  {
    assert Listed(g, v);
    var i :| 0 <= i < |g.nodes| && g.nodes[i] == v;
    i
  }

  lemma PositionOf(g: Graph, i: nat)
    requires WellFormed(g) && i < |g.nodes|
    ensures Position(g, g.nodes[i]) == i
  {
    DistinctEntries(g.nodes, i, Position(g, g.nodes[i]));
  }

  /** The neighbour a scan of `links` settles on, and its weight; `own` and 0 when no known neighbour weighs more than 0. */
  function Best(g: Graph, links: seq<Link>, own: NodeId): (best: Link)
    requires own in g.links
    ensures best.to in g.links
  {
    if links == [] then Link(own, 0.0)
    else
      var best := Best(g, links[..|links| - 1], own);
      var link := links[|links| - 1];
      if link.to in g.links && link.weight > best.weight then link else best
  }

  /** The heaviest neighbour of v, first in iteration order among equals; v itself if it has none. */
  function Heaviest(g: Graph, v: NodeId): (u: NodeId)
    requires v in g.links
    ensures u in g.links
  {
    Best(g, g.links[v], v).to
  }

  /** The heaviest-neighbour graph over positions. */
  ghost function Choice(g: Graph): (f: seq<nat>)
    requires WellFormed(g)
    ensures |f| == |g.nodes| && Endo(f)
    ensures forall i {:trigger f[i]} :: 0 <= i < |f| ==> f[i] == Position(g, Heaviest(g, g.nodes[i]))
  {
    seq(|g.nodes|, i requires 0 <= i < |g.nodes| => Position(g, Heaviest(g, g.nodes[i])))
  }

  /** The map holds, for each node, the label at its position. */
  ghost predicate Holds(g: Graph, community: map<NodeId, nat>, labels: seq<nat>) {
    && community.Keys == g.links.Keys
    && |labels| == |g.nodes|
    && forall i :: 0 <= i < |g.nodes| ==> g.nodes[i] in community && community[g.nodes[i]] == labels[i]
  }

  /** The scan over one node's neighbours. */
  method BestCommunity(g: Graph, community: map<NodeId, nat>, node: NodeId) returns (best: nat)
    requires node in g.links && community.Keys == g.links.Keys
    ensures best == community[Heaviest(g, node)]
  {
    var neighbours := g.links[node];
    best := community[node];
    var bestScore := 0.0;
    for i := 0 to |neighbours|
      invariant var b := Best(g, neighbours[..i], node); bestScore == b.weight && best == community[b.to]
    {
      assert neighbours[..i + 1][..i] == neighbours[..i];
      var link := neighbours[i];
      if link.to in community {
        if link.weight > bestScore {
          bestScore := link.weight;
          best := community[link.to];
        }
      }
    }
    assert neighbours[..|neighbours|] == neighbours;
  }

  /** Writing the label of one node in the map is writing it at the node's position. */
  lemma HoldsUpdate(g: Graph, community: map<NodeId, nat>, labels: seq<nat>, i: nat, best: nat)
    requires WellFormed(g) && Holds(g, community, labels) && i < |g.nodes|
    ensures Holds(g, community[g.nodes[i] := best], labels[i := best])
  {
    var next := community[g.nodes[i] := best];
    forall j | 0 <= j < |g.nodes|
      ensures g.nodes[j] in next && next[g.nodes[j]] == labels[i := best][j]
    {
      if g.nodes[j] == g.nodes[i] {
        DistinctEntries(g.nodes, i, j);
      }
    }
    assert next.Keys == community.Keys;
  }

  /** One pass over all nodes, rewriting labels in place. */
  method SweepOnce(g: Graph, before: map<NodeId, nat>, ghost labels: seq<nat>)
    returns (community: map<NodeId, nat>, improved: bool)
    requires WellFormed(g) && Holds(g, before, labels)
    ensures Holds(g, community, Sweep(Choice(g), labels))
    ensures improved <==> Sweep(Choice(g), labels) != labels
  {
    community := before;
    improved := false;
    ghost var choice := Choice(g);
    ghost var current := labels;
    for i := 0 to |g.nodes|
      invariant Holds(g, community, current)
      invariant SweepFrom(choice, current, i) == Sweep(choice, labels)
      invariant forall j :: i <= j < |g.nodes| ==> current[j] == labels[j]
      invariant improved <==> exists j :: 0 <= j < i && current[j] != labels[j]
    {
      var best := BestCommunity(g, community, g.nodes[i]);
      NodeStep(g, community, current, choice, i, best);
      ghost var next := current[i := best];
      assert next[i] == best && forall j :: 0 <= j < i ==> next[j] == current[j];
      if best != community[g.nodes[i]] {
        community := community[g.nodes[i] := best];
        improved := true;
      }
      current := next;
    }
  }

  lemma NodeStep(g: Graph, community: map<NodeId, nat>, current: seq<nat>, choice: seq<nat>, i: nat, best: nat)
    requires WellFormed(g) && Holds(g, community, current) && i < |g.nodes| && choice == Choice(g)
    requires best == community[Heaviest(g, g.nodes[i])]
    ensures best == current[choice[i]] && community[g.nodes[i]] == current[i]
    ensures Holds(g, community[g.nodes[i] := best], current[i := best])
  {
    var u := Heaviest(g, g.nodes[i]);
    assert g.nodes[choice[i]] == u;
    HoldsUpdate(g, community, current, i, best);
  }

  /** Every node starts in the community of its own position. */
  method Singletons(g: Graph) returns (community: map<NodeId, nat>)
    requires WellFormed(g)
    ensures Holds(g, community, Labels(Choice(g), 0))
  {
    community := map[];
    for i := 0 to |g.nodes|
      invariant community.Keys == set v | v in g.nodes[..i]
      invariant forall j :: 0 <= j < i ==> community[g.nodes[j]] == j
    {
      forall j | 0 <= j < i
        ensures g.nodes[j] != g.nodes[i]
      {
        if g.nodes[j] == g.nodes[i] {
          DistinctEntries(g.nodes, i, j);
        }
      }
      assert g.nodes[..i + 1] == g.nodes[..i] + [g.nodes[i]];
      community := community[g.nodes[i] := i];
    }
    forall v | v in g.links
      ensures v in community
    {
      assert Listed(g, v);
    }
  }

  /** Runs sweeps until one changes nothing. The graph must be one on which that happens (`RestExactly`). */
  method RunLouvain(g: Graph) returns (community: map<NodeId, nat>)
    requires WellFormed(g) && Settles(Choice(g))
    ensures exists k: nat :: AtRest(Choice(g), Labels(Choice(g), k)) && Holds(g, community, Labels(Choice(g), k))
    ensures forall u, v :: u in g.links && v in g.links ==>
      (u in community && v in community &&
       (community[u] == community[v] <==> Connected(Choice(g), Position(g, u), Position(g, v))))
  {
    community := Singletons(g);
    ghost var choice := Choice(g);
    ghost var k: nat := 0;
    var improved := true;
    while improved
      invariant Holds(g, community, Labels(choice, k))
      invariant !improved ==> AtRest(choice, Labels(choice, k))
      decreases |Image(Source(choice), k)|, improved
    {
      ghost var labels := Labels(choice, k);
      community, improved := SweepOnce(g, community, labels);
      if improved {
        SweepLosesACommunity(choice, k);
        k := k + 1;
      }
    }
    forall u, v | u in g.links && v in g.links
      ensures u in community && v in community
      ensures community[u] == community[v] <==> Connected(choice, Position(g, u), Position(g, v))
    {
      var i, j := Position(g, u), Position(g, v);
      CommunitiesAreComponents(choice, k, i, j);
    }
  }

  // ---------------------------------------------------------------- symmetric graphs

  /** The link has a positive weight and its end holds the same link back. */
  predicate Mirrored(g: Graph, v: NodeId, link: Link) {
    link.weight > 0.0 && link.to in g.links && Link(v, link.weight) in g.links[link.to]
  }

  /** Equal weights occur only on the two directions of one edge. */
  predicate TellApart(u: NodeId, a: Link, v: NodeId, b: Link) {
    a.weight == b.weight ==> {u, a.to} == {v, b.to}
  }

  /** The graph is undirected, and its edges have positive weights that tell them apart. */
  ghost predicate DistinctSymmetric(g: Graph) {
    && (forall v, a {:trigger Mirrored(g, v, a)} :: v in g.links && a in g.links[v] ==> Mirrored(g, v, a))
    && (forall u, a, v, b {:trigger TellApart(u, a, v, b)} ::
      (u in g.links && a in g.links[u] && v in g.links && b in g.links[v]) ==> TellApart(u, a, v, b))
  }

  /** The scan's result weighs at least as much as every known neighbour, and is a link of its own unless it is `own`. */
  lemma {:induction false} BestIsHeaviest(g: Graph, links: seq<Link>, own: NodeId, i: nat)
    requires own in g.links
    ensures Best(g, links, own).weight >= 0.0
    ensures Best(g, links, own).weight > 0.0 ==> Best(g, links, own) in links
    ensures Best(g, links, own).weight == 0.0 ==> Best(g, links, own).to == own
    ensures i < |links| && links[i].to in g.links ==> Best(g, links, own).weight >= links[i].weight
  {
    if links != [] {
      BestIsHeaviest(g, links[..|links| - 1], own, i);
    }
  }

  function Weight(g: Graph, v: NodeId): real
    requires v in g.links
  {
    Best(g, g.links[v], v).weight
  }

  /** Along heaviest neighbours weights do not fall, and where they stay equal the choice is mutual. */
  lemma HeaviestClimbs(g: Graph, v: NodeId)
    requires WellFormed(g) && DistinctSymmetric(g) && v in g.links
    ensures Weight(g, Heaviest(g, v)) >= Weight(g, v)
    ensures Weight(g, Heaviest(g, v)) == Weight(g, v) ==> Heaviest(g, Heaviest(g, v)) in {v, Heaviest(g, v)}
  {
    var b := Best(g, g.links[v], v);
    BestIsHeaviest(g, g.links[v], v, 0);
    var u := b.to;
    BestIsHeaviest(g, g.links[u], u, 0);
    if b.weight > 0.0 {
      assert Mirrored(g, v, b);
      var j :| 0 <= j < |g.links[u]| && g.links[u][j] == Link(v, b.weight);
      BestIsHeaviest(g, g.links[u], u, j);
      var c := Best(g, g.links[u], u);
      assert TellApart(v, b, u, c);
      assert c.weight == b.weight ==> v in {u, c.to};
    }
  }

  lemma {:induction false} WeightsClimb(g: Graph, k: nat, i: nat)
    requires WellFormed(g) && DistinctSymmetric(g) && i < |g.nodes|
    ensures Weight(g, g.nodes[Iter(Choice(g), k, i)]) >= Weight(g, g.nodes[i])
  {
    if k > 0 {
      WeightsClimb(g, k - 1, i);
      var j := Iter(Choice(g), k - 1, i);
      HeaviestClimbs(g, g.nodes[j]);
      assert g.nodes[Choice(g)[j]] == Heaviest(g, g.nodes[j]);
    }
  }

  /** On a cycle of heaviest neighbours every choice is mutual. */
  lemma CyclesAreMutual(g: Graph, i: nat)
    requires WellFormed(g) && DistinctSymmetric(g) && i < |g.nodes| && Periodic(Choice(g), i)
    ensures Choice(g)[Choice(g)[i]] in {i, Choice(g)[i]}
  {
    var f := Choice(g);
    var k: nat :| Iter(f, k, f[i]) == i;
    WeightsClimb(g, k, f[i]);
    HeaviestClimbs(g, g.nodes[i]);
    PositionOf(g, i);
  }

  lemma {:induction false} MutualOrbit(f: seq<nat>, x: nat, k: nat)
    requires Endo(f) && x < |f| && f[f[x]] in {x, f[x]}
    ensures Iter(f, k, x) in {x, f[x]}
  {
    if k > 0 {
      MutualOrbit(f, x, k - 1);
    }
  }

  /** So on a symmetric graph with distinct positive edge weights the loop ends. */
  lemma DistinctSymmetricSettles(g: Graph)
    requires WellFormed(g) && DistinctSymmetric(g)
    ensures Settles(Choice(g))
  {
    var f := Choice(g);
    forall u: nat, v: nat | u < |f| && v < |f| && Forward(f, u) && Forward(f, v) && Reaches(f, u, v) && Reaches(f, v, u)
      ensures u == v
    {
      if u != v {
        TwoOnOneCycle(f, u, v);
        CyclesAreMutual(g, u);
        var k: nat :| Iter(f, k, u) == v;
        MutualOrbit(f, u, k);
      }
    }
  }

  /** Three nodes that each prefer the next: a graph on which the loop never ends. */
  const RING: Graph := Graph(["a", "b", "c"], map[
    "a" := [Link("b", 2.0)],
    "b" := [Link("c", 2.0)],
    "c" := [Link("a", 2.0)]])

  /** Equal weights on an undirected triangle, each node listing a different neighbour first, do the same. */
  const TRIANGLE: Graph := Graph(["a", "b", "c"], map[
    "a" := [Link("b", 1.0), Link("c", 1.0)],
    "b" := [Link("c", 1.0), Link("a", 1.0)],
    "c" := [Link("a", 1.0), Link("b", 1.0)]])

  lemma RotationNeverRests(f: seq<nat>)
    requires f == [1, 2, 0]
    ensures forall k: nat :: !AtRest(f, Labels(f, k))
  {
    assert Iter(f, 0, 0) == 0 && Iter(f, 0, 1) == 1;
    assert Iter(f, 1, 0) == 1 && Iter(f, 1, 1) == 2 && Iter(f, 2, 1) == 0;
    assert Reaches(f, 0, 1) && Reaches(f, 1, 0);
    assert Forward(f, 0) && Forward(f, 1);
    RestExactly(f);
  }

  lemma ScanStopsAtFirst(g: Graph, a: Link, b: Link, own: NodeId)
    requires own in g.links && a.to in g.links && a.weight > 0.0 && b.weight <= a.weight
    ensures Best(g, [a], own) == a && Best(g, [a, b], own) == a
  {
    assert [a, b][..1] == [a] && [a][..0] == [];
    assert Best(g, [], own) == Link(own, 0.0);
  }

  lemma RingNeverRests(g: Graph)
    requires g == RING || g == TRIANGLE
    ensures WellFormed(g) && forall k: nat :: !AtRest(Choice(g), Labels(Choice(g), k))
  {
    ThreeNodes(g);
    ScanStopsAtFirst(g, g.links["a"][0], Link("c", 1.0), "a");
    ScanStopsAtFirst(g, g.links["b"][0], Link("a", 1.0), "b");
    ScanStopsAtFirst(g, g.links["c"][0], Link("b", 1.0), "c");
    PositionOf(g, 0);
    PositionOf(g, 1);
    PositionOf(g, 2);
    RotationNeverRests(Choice(g));
  }

  lemma ThreeNodes(g: Graph)
    requires g == RING || g == TRIANGLE
    ensures WellFormed(g)
  {
    assert g.nodes[..2] == ["a", "b"] && g.nodes[..2][..1] == ["a"] && ["a"][..0] == [];
    assert Distinct([]) && Distinct(["a"]) && Distinct(["a", "b"]);
    assert g.nodes[0] in g.links && g.nodes[1] in g.links && g.nodes[2] in g.links;
    forall v | v in g.links
      ensures Listed(g, v)
    {
      assert v == g.nodes[0] || v == g.nodes[1] || v == g.nodes[2];
    }
  }
}
