// Label propagation along one outgoing choice per node, updated in place in index order.
// Node i copies the current label of node choice[i]; the theory says what k sweeps compute
// and exactly when sweeping comes to rest.
module Propagation {
  import opened Iteration

  // ---------------------------------------------------------------- sweeps as the loop runs them

  function SweepFrom(choice: seq<nat>, labels: seq<nat>, i: nat): (r: seq<nat>)
    requires Endo(choice) && |labels| == |choice| && i <= |choice|
    ensures |r| == |choice|
    decreases |choice| - i
  {
    if i == |choice| then labels
    else SweepFrom(choice, labels[i := labels[choice[i]]], i + 1)
  }

  function Sweep(choice: seq<nat>, labels: seq<nat>): (r: seq<nat>)
    requires Endo(choice) && |labels| == |choice|
    ensures |r| == |choice|
  {
    SweepFrom(choice, labels, 0)
  }

  /** The labels after k sweeps, from every node alone in the community of its own index. */
  function Labels(choice: seq<nat>, k: nat): (r: seq<nat>)
    requires Endo(choice)
    ensures |r| == |choice|
  {
    if k == 0 then seq(|choice|, i => i) else Sweep(choice, Labels(choice, k - 1))
  }

  /** Another sweep would change nothing. */
  predicate AtRest(choice: seq<nat>, labels: seq<nat>)
    requires Endo(choice) && |labels| == |choice|
  {
    Sweep(choice, labels) == labels
  }

  // ---------------------------------------------------------------- sweeps as composition

  /** The first node on v's walk along choices that does not copy from an earlier node. */
  function Turn(choice: seq<nat>, v: nat): (w: nat)
    requires Endo(choice) && v < |choice|
    ensures w < |choice| && w <= choice[w]
  {
    if choice[v] < v then Turn(choice, choice[v]) else v
  }

  /** For each node, the node whose previous label it holds after a sweep. */
  function Source(choice: seq<nat>): (f: seq<nat>)
    requires Endo(choice)
    ensures |f| == |choice| && Endo(f)
    ensures forall v :: 0 <= v < |choice| ==> f[v] == choice[Turn(choice, v)]
  {
    seq(|choice|, v requires 0 <= v < |choice| => choice[Turn(choice, v)])
  }

  /** Nodes before i hold their source's label from before the sweep, the others are untouched. */
  ghost predicate PartlySwept(choice: seq<nat>, before: seq<nat>, labels: seq<nat>, i: nat)
    requires Endo(choice) && |before| == |choice|
  {
    && |labels| == |choice|
    && forall v :: 0 <= v < |choice| ==>
      labels[v] == if v < i then before[choice[Turn(choice, v)]] else before[v]
  }

  lemma UpdateSweeps(choice: seq<nat>, before: seq<nat>, labels: seq<nat>, i: nat)
    requires Endo(choice) && |before| == |choice| && i < |choice|
    requires PartlySwept(choice, before, labels, i)
    ensures PartlySwept(choice, before, labels[i := labels[choice[i]]], i + 1)
  {
    assert labels[choice[i]] == before[choice[Turn(choice, i)]];
  }

  lemma {:induction false} SweepFromComposes(choice: seq<nat>, before: seq<nat>, labels: seq<nat>, i: nat)
    requires Endo(choice) && |before| == |choice| && i <= |choice|
    requires PartlySwept(choice, before, labels, i)
    ensures PartlySwept(choice, before, SweepFrom(choice, labels, i), |choice|)
    decreases |choice| - i
  {
    if i < |choice| {
      UpdateSweeps(choice, before, labels, i);
      SweepFromComposes(choice, before, labels[i := labels[choice[i]]], i + 1);
    }
  }

  /** A whole in-place sweep replaces each label by the previous label of the node's source. */
  lemma SweepComposes(choice: seq<nat>, labels: seq<nat>, v: nat)
    requires Endo(choice) && |labels| == |choice| && v < |choice|
    ensures Sweep(choice, labels)[v] == labels[Source(choice)[v]]
  {
    SweepFromComposes(choice, labels, labels, 0);
  }

  /** After k sweeps v is in the first community of the k-th iterate of the source map. */
  lemma {:induction false} LabelsAreIterates(choice: seq<nat>, k: nat, v: nat)
    requires Endo(choice) && v < |choice|
    ensures Labels(choice, k)[v] == Iter(Source(choice), k, v)
  {
    if k > 0 {
      var f := Source(choice);
      SweepComposes(choice, Labels(choice, k - 1), v);
      LabelsAreIterates(choice, k - 1, f[v]);
      IterShift(f, k - 1, v);
    }
  }

  // ---------------------------------------------------------------- when sweeping comes to rest

  predicate Forward(choice: seq<nat>, v: nat)
    requires v < |choice|
  {
    v < choice[v]
  }

  /** On every cycle of choices at most one node copies from a later node. */
  ghost predicate Settles(choice: seq<nat>)
    requires Endo(choice)
  {
    forall u: nat, v: nat ::
      (u < |choice| && v < |choice| && Forward(choice, u) && Forward(choice, v)
       && Reaches(choice, u, v) && Reaches(choice, v, u)) ==> u == v
  }

  lemma {:induction false} TurnIsReached(choice: seq<nat>, v: nat)
    requires Endo(choice) && v < |choice|
    ensures Reaches(choice, v, Turn(choice, v))
    ensures Reaches(choice, v, Source(choice)[v])
    decreases v
  {
    ReachesStep(choice, v);
    if choice[v] < v {
      TurnIsReached(choice, choice[v]);
      ReachesTransitive(choice, v, choice[v], Turn(choice, v));
    }
    var w := Turn(choice, v);
    ReachesStep(choice, w);
    ReachesTransitive(choice, v, w, choice[w]);
  }

  lemma {:induction false} SourceOrbitFollowsChoices(choice: seq<nat>, k: nat, v: nat)
    requires Endo(choice) && v < |choice|
    ensures Reaches(choice, v, Iter(Source(choice), k, v))
  {
    if k == 0 {
      ReachesStep(choice, v);
    } else {
      var u := Iter(Source(choice), k - 1, v);
      SourceOrbitFollowsChoices(choice, k - 1, v);
      TurnIsReached(choice, u);
      ReachesTransitive(choice, v, u, Source(choice)[u]);
    }
  }

  lemma SourceReachesInChoices(choice: seq<nat>, u: nat, v: nat)
    requires Endo(choice) && u < |choice| && Reaches(Source(choice), u, v)
    ensures Reaches(choice, u, v)
  {
    var k: nat :| Iter(Source(choice), k, u) == v;
    SourceOrbitFollowsChoices(choice, k, u);
  }

  /** A walk that starts at a self-choosing node never leaves it. */
  lemma SelfChoiceTraps(choice: seq<nat>, w: nat, v: nat)
    requires Endo(choice) && w < |choice| && choice[w] == w && Reaches(choice, w, v)
    ensures v == w
  {
    var k: nat :| Iter(choice, k, w) == v;
    FixedForever(choice, k, w);
  }

  /** One forward node per cycle leaves the source map without proper cycles. */
  lemma SettlesGivesTrivialCycles(choice: seq<nat>)
    requires Endo(choice) && Settles(choice)
    ensures OnlyTrivialCycles(Source(choice))
  {
    var f := Source(choice);
    forall x: nat | x < |f| && Periodic(f, x)
      ensures f[x] == x
    {
      PeriodicSourceRests(choice, x);
    }
  }

  lemma PeriodicSourceRests(choice: seq<nat>, x: nat)
    requires Endo(choice) && Settles(choice) && x < |choice| && Periodic(Source(choice), x)
    ensures Source(choice)[x] == x
  {
    var f := Source(choice);
    var k: nat :| Iter(f, k, f[x]) == x;
    var y := Iter(f, k, x);          // x is the source of y
    IterShift(f, k, x);
    assert f[y] == x;
    var w, w' := Turn(choice, y), Turn(choice, x);
    // x, y, w and w' all lie on one cycle of choices
    TurnIsReached(choice, x);
    TurnIsReached(choice, y);
    SourceReachesInChoices(choice, f[x], x);
    SourceOrbitFollowsChoices(choice, k, x);
    ReachesStep(choice, w);
    ReachesStep(choice, w');
    assert choice[w] == x && choice[w'] == f[x];
    ReachesTransitive(choice, w, x, w');
    ReachesTransitive(choice, w', f[x], x);
    ReachesTransitive(choice, w', x, y);
    ReachesTransitive(choice, w', y, w);
    if choice[w] == w {
      SelfChoiceTraps(choice, w, w');
    } else if choice[w'] == w' {
      SelfChoiceTraps(choice, w', w);
    }
  }

  /** The nodes whose next turn is w are closed under choices once w's choice leads back to w. */
  lemma {:induction false} TurnIsStableOnRest(choice: seq<nat>, z: nat, k: nat)
    requires Endo(choice) && z < |choice| && Source(choice)[z] == z
    ensures Turn(choice, Iter(choice, k, z)) == Turn(choice, z)
  {
    if k > 0 {
      TurnIsStableOnRest(choice, z, k - 1);
    }
  }

  /** A forward node that a resting node reaches is the resting node's next turn. */
  lemma ForwardBelowRest(choice: seq<nat>, z: nat, u: nat)
    requires Endo(choice) && z < |choice| && u < |choice| && Source(choice)[z] == z
    requires Reaches(choice, z, u) && Forward(choice, u)
    ensures u == Turn(choice, z)
  {
    var k: nat :| Iter(choice, k, z) == u;
    TurnIsStableOnRest(choice, z, k);
  }

  /** If some labelling in the run is at rest, no cycle has two forward nodes. */
  lemma RestForcesSettles(choice: seq<nat>, k: nat)
    requires Endo(choice) && AtRest(choice, Labels(choice, k))
    ensures Settles(choice)
  {
    forall u: nat, v: nat | u < |choice| && v < |choice| && Forward(choice, u) && Forward(choice, v)
      && Reaches(choice, u, v) && Reaches(choice, v, u)
      ensures u == v
    {
      if u != v {
        var f := Source(choice);
        var z := Iter(f, k, u);
        LabelsAreIterates(choice, k, u);
        SweepComposes(choice, Labels(choice, k), u);
        RestingLabelIsFixed(choice, k, u);
        SourceOrbitFollowsChoices(choice, k, u);
        TwoOnOneCycle(choice, u, v);
        var j: nat :| Iter(choice, j, u) == z;
        CycleReturns(choice, u, j);
        ReachesTransitive(choice, z, u, v);
        ForwardBelowRest(choice, z, u);
        ForwardBelowRest(choice, z, v);
      }
    }
  }

  lemma RestingLabelIsFixed(choice: seq<nat>, k: nat, v: nat)
    requires Endo(choice) && v < |choice| && AtRest(choice, Labels(choice, k))
    ensures var z := Iter(Source(choice), k, v); Source(choice)[z] == z
  {
    LabelsAreIterates(choice, k, v);
    LabelsAreIterates(choice, k + 1, v);
  }

  /** Sweeping comes to rest exactly when every cycle of choices has at most one forward node. */
  lemma RestExactly(choice: seq<nat>)
    requires Endo(choice)
    ensures (exists k: nat :: AtRest(choice, Labels(choice, k))) <==> Settles(choice)
  {
    if k: nat :| AtRest(choice, Labels(choice, k)) {
      RestForcesSettles(choice, k);
    }
    if Settles(choice) {
      SettlesGivesTrivialCycles(choice);
      var n := |choice|;
      forall v | 0 <= v < n
        ensures Sweep(choice, Labels(choice, n))[v] == Labels(choice, n)[v]
      {
        AllRest(Source(choice), n, v);
        LabelsAreIterates(choice, n, v);
        LabelsAreIterates(choice, n + 1, v);
      }
      assert AtRest(choice, Labels(choice, n));
    }
  }

  /** Where it settles, a sweep that changes a label leaves strictly fewer communities in use. */
  lemma SweepLosesACommunity(choice: seq<nat>, k: nat)
    requires Endo(choice) && Settles(choice) && !AtRest(choice, Labels(choice, k))
    ensures |Image(Source(choice), k + 1)| < |Image(Source(choice), k)|
  {
    var f := Source(choice);
    var v: nat :| v < |choice| && Labels(choice, k + 1)[v] != Labels(choice, k)[v];
    LabelsAreIterates(choice, k, v);
    LabelsAreIterates(choice, k + 1, v);
    SettlesGivesTrivialCycles(choice);
    ImageShrinks(f, k, v);
    SubsetCount(Image(f, k + 1), Image(f, k));
  }

  // ---------------------------------------------------------------- what the resting labels say

  /** One of the two chose the other. */
  predicate Linked(choice: seq<nat>, u: nat, v: nat)
    requires u < |choice| && v < |choice|
  {
    choice[u] == v || choice[v] == u
  }

  /** path leads from u to v along choices taken in either direction. */
  ghost predicate Path(choice: seq<nat>, path: seq<nat>, u: nat, v: nat) {
    && path != [] && path[0] == u && path[|path| - 1] == v
    && (forall i :: 0 <= i < |path| ==> path[i] < |choice|)
    && (forall i :: 0 <= i < |path| - 1 ==> Linked(choice, path[i], path[i + 1]))
  }

  /** u and v lie in one weakly connected component of the choices. */
  ghost predicate Connected(choice: seq<nat>, u: nat, v: nat) {
    exists path :: Path(choice, path, u, v)
  }

  lemma ConnectedSymmetric(choice: seq<nat>, u: nat, v: nat)
    requires Connected(choice, u, v)
    ensures Connected(choice, v, u)
  {
    var path :| Path(choice, path, u, v);
    var back := seq(|path|, i requires 0 <= i < |path| => path[|path| - 1 - i]);
    forall i | 0 <= i < |back| - 1
      ensures Linked(choice, back[i], back[i + 1])
    {
      assert Linked(choice, path[|path| - 2 - i], path[|path| - 2 - i + 1]);
    }
    assert Path(choice, back, v, u);
  }

  lemma ConnectedTransitive(choice: seq<nat>, u: nat, v: nat, w: nat)
    requires Connected(choice, u, v) && Connected(choice, v, w)
    ensures Connected(choice, u, w)
  {
    var p :| Path(choice, p, u, v);
    var q :| Path(choice, q, v, w);
    var joined := p + q[1..];
    forall i | 0 <= i < |joined| - 1
      ensures Linked(choice, joined[i], joined[i + 1])
    {
      if i >= |p| - 1 {
        assert Linked(choice, q[i - (|p| - 1)], q[i - (|p| - 1) + 1]);
      }
    }
    assert Path(choice, joined, u, w);
  }

  lemma {:induction false} IterateConnected(choice: seq<nat>, k: nat, v: nat)
    requires Endo(choice) && v < |choice|
    ensures Connected(choice, v, Iter(choice, k, v))
  {
    if k == 0 {
      assert Path(choice, [v], v, v);
    } else {
      IterateConnected(choice, k - 1, v);
      var u := Iter(choice, k - 1, v);
      assert Path(choice, [u, choice[u]], u, choice[u]);
      ConnectedTransitive(choice, v, u, choice[u]);
    }
  }

  /** A label always names a node of the same component. */
  lemma LabelInComponent(choice: seq<nat>, k: nat, v: nat)
    requires Endo(choice) && v < |choice|
    ensures Connected(choice, v, Labels(choice, k)[v])
  {
    LabelsAreIterates(choice, k, v);
    SourceOrbitFollowsChoices(choice, k, v);
    var j: nat :| Iter(choice, j, v) == Iter(Source(choice), k, v);
    IterateConnected(choice, j, v);
  }

  /** At rest every node agrees with the node it chose. */
  lemma {:induction false} RestAgreesWithChoice(choice: seq<nat>, labels: seq<nat>, v: nat)
    requires Endo(choice) && |labels| == |choice| && AtRest(choice, labels) && v < |choice|
    ensures labels[v] == labels[choice[v]]
  {
    SweepComposes(choice, labels, v);
    SweepComposes(choice, labels, choice[v]);
  }

  lemma {:induction false} RestAgreesAlongPath(choice: seq<nat>, labels: seq<nat>, path: seq<nat>, i: nat)
    requires Endo(choice) && |labels| == |choice| && AtRest(choice, labels) && i < |path|
    requires Path(choice, path, path[0], path[|path| - 1])
    ensures labels[path[i]] == labels[path[0]]
  {
    if i > 0 {
      RestAgreesAlongPath(choice, labels, path, i - 1);
      assert Linked(choice, path[i - 1], path[i - 1 + 1]);
      RestAgreesWithChoice(choice, labels, path[i - 1]);
      RestAgreesWithChoice(choice, labels, path[i]);
    }
  }

  /** When sweeping rests, two nodes share a community exactly when they are weakly connected. */
  lemma CommunitiesAreComponents(choice: seq<nat>, k: nat, u: nat, v: nat)
    requires Endo(choice) && u < |choice| && v < |choice| && AtRest(choice, Labels(choice, k))
    ensures Labels(choice, k)[u] == Labels(choice, k)[v] <==> Connected(choice, u, v)
  {
    var labels := Labels(choice, k);
    if labels[u] == labels[v] {
      LabelInComponent(choice, k, u);
      LabelInComponent(choice, k, v);
      ConnectedSymmetric(choice, v, labels[v]);
      ConnectedTransitive(choice, u, labels[u], v);
    }
    if path :| Path(choice, path, u, v) {
      RestAgreesAlongPath(choice, labels, path, |path| - 1);
    }
  }
}
