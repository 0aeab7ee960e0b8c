/** Iterating a function on the numbers below n, kept as a table: orbits, cycles and when values stop moving. */
module Iteration {

  /** A table of numbers that are all indices of the table. */
  predicate Endo(f: seq<nat>) {
    forall i :: 0 <= i < |f| ==> f[i] < |f|
  }

  function Iter(f: seq<nat>, k: nat, x: nat): (y: nat)
    requires Endo(f) && x < |f|
    ensures y < |f|
  {
    if k == 0 then x else f[Iter(f, k - 1, x)]
  }

  lemma {:induction false} IterAdd(f: seq<nat>, a: nat, b: nat, x: nat)
    requires Endo(f) && x < |f|
    ensures Iter(f, a + b, x) == Iter(f, a, Iter(f, b, x))
  {
    if a > 0 {
      IterAdd(f, a - 1, b, x);
    }
  }

  lemma {:induction false} IterShift(f: seq<nat>, k: nat, x: nat)
    requires Endo(f) && x < |f|
    ensures Iter(f, k + 1, x) == Iter(f, k, f[x])
  {
    if k > 0 {
      IterShift(f, k - 1, x);
    }
  }

  /** A point that f fixes stays where it is for ever. */
  lemma {:induction false} FixedForever(f: seq<nat>, k: nat, x: nat)
    requires Endo(f) && x < |f| && f[x] == x
    ensures Iter(f, k, x) == x
  {
    if k > 0 {
      FixedForever(f, k - 1, x);
    }
  }

  /** x reaches y by following f. */
  ghost predicate Reaches(f: seq<nat>, x: nat, y: nat)
    requires Endo(f) && x < |f|
  {
    exists k: nat :: Iter(f, k, x) == y
  }

  ghost predicate Periodic(f: seq<nat>, x: nat)
    requires Endo(f) && x < |f|
  {
    Reaches(f, f[x], x)
  }

  /** Every cycle of f is a single fixed point. */
  ghost predicate OnlyTrivialCycles(f: seq<nat>)
    requires Endo(f)
  {
    forall x: nat {:trigger Periodic(f, x)} :: x < |f| && Periodic(f, x) ==> f[x] == x
  }

  lemma ReachesTransitive(f: seq<nat>, x: nat, y: nat, z: nat)
    requires Endo(f) && x < |f| && y < |f| && Reaches(f, x, y) && Reaches(f, y, z)
    ensures Reaches(f, x, z)
  {
    var a: nat :| Iter(f, a, x) == y;
    var b: nat :| Iter(f, b, y) == z;
    IterAdd(f, b, a, x);
  }

  lemma ReachesStep(f: seq<nat>, x: nat)
    requires Endo(f) && x < |f|
    ensures Reaches(f, x, x) && Reaches(f, x, f[x])
  {
    assert Iter(f, 0, x) == x;
    assert Iter(f, 1, x) == f[Iter(f, 0, x)];
  }

  /** What lies on a cycle with x reaches x again. */
  lemma {:induction false} CycleReturns(f: seq<nat>, x: nat, k: nat)
    requires Endo(f) && x < |f| && Periodic(f, x)
    ensures Reaches(f, Iter(f, k, x), x)
  {
    if k == 0 {
      ReachesStep(f, x);
    } else {
      CycleReturns(f, x, k - 1);
      var y := Iter(f, k - 1, x);
      var j: nat :| Iter(f, j, y) == x;
      if j > 0 {
        IterShift(f, j - 1, y);
      }
    }
  }

  lemma TwoOnOneCycle(f: seq<nat>, x: nat, y: nat)
    requires Endo(f) && x < |f| && y < |f| && x != y && Reaches(f, x, y) && Reaches(f, y, x)
    ensures Periodic(f, x)
  {
    var k: nat :| Iter(f, k, x) == y;
    IterShift(f, k - 1, x);
    ReachesTransitive(f, f[x], y, x);
  }

  /** The values still in use after k steps. */
  ghost function Image(f: seq<nat>, k: nat): (s: set<nat>)
    requires Endo(f)
    ensures forall y :: y in s ==> y < |f|
  {
    set x | 0 <= x < |f| :: Iter(f, k, x)
  }

  ghost function Below(n: nat): (s: set<nat>)
    ensures |s| == n && forall i: nat {:trigger i in s} :: i in s <==> i < n
  {
    if n == 0 then {} else Below(n - 1) + {n - 1}
  }

  ghost function Elements(s: seq<nat>): set<nat> {
    set x | x in s
  }

  lemma {:induction false} DistinctCount(s: seq<nat>)
    requires forall i, j :: 0 <= i < j < |s| ==> s[i] != s[j]
    ensures |Elements(s)| == |s|
  {
    if |s| > 0 {
      var rest, last := s[..|s| - 1], s[|s| - 1];
      DistinctCount(rest);
      assert last !in rest;
      assert s == rest + [last];
      assert Elements(s) == Elements(rest) + {last};
    }
  }

  lemma {:induction false} SubsetCount<T>(a: set<T>, b: set<T>)
    requires a <= b
    ensures |a| <= |b|
    ensures a != b ==> |a| < |b|
  {
    assert b == a + (b - a);
    assert a != b ==> b - a != {};
  }

  /** n + 1 numbers below n repeat. */
  lemma Pigeonhole(s: seq<nat>, n: nat) returns (i: nat, j: nat)
    requires |s| > n && forall i :: 0 <= i < |s| ==> s[i] < n
    ensures i < j < |s| && s[i] == s[j]
  {
    if forall i, j :: 0 <= i < j < |s| ==> s[i] != s[j] {
      DistinctCount(s);
      SubsetCount(Elements(s), Below(n));
      assert false;
    }
    i, j :| 0 <= i < j < |s| && s[i] == s[j];
  }

  /** Some power no larger than the number of points brings x onto a cycle. */
  lemma OrbitClosesUp(f: seq<nat>, x: nat) returns (i: nat)
    requires Endo(f) && x < |f|
    ensures i <= |f| && Periodic(f, Iter(f, i, x))
  {
    var orbit := seq(|f| + 1, k requires 0 <= k => Iter(f, k, x));
    var a, b := Pigeonhole(orbit, |f|);
    i := a;
    IterAdd(f, b - a, a, x);
    IterShift(f, b - a - 1, Iter(f, a, x));
  }

  /** With only trivial cycles, every point is at rest after as many steps as there are points. */
  lemma AllRest(f: seq<nat>, k: nat, x: nat)
    requires Endo(f) && x < |f| && OnlyTrivialCycles(f) && k >= |f|
    ensures f[Iter(f, k, x)] == Iter(f, k, x)
  {
    var i := OrbitClosesUp(f, x);
    var y := Iter(f, i, x);
    FixedForever(f, k - i, y);
    IterAdd(f, k - i, i, x);
  }

  lemma ImageWeaklyShrinks(f: seq<nat>, k: nat)
    requires Endo(f)
    ensures Image(f, k + 1) <= Image(f, k)
  {
    forall y | y in Image(f, k + 1)
      ensures y in Image(f, k)
    {
      var x: nat :| x < |f| && Iter(f, k + 1, x) == y;
      IterShift(f, k, x);
    }
  }

  lemma {:induction false} ImageStaysPut(f: seq<nat>, k: nat, m: nat, y: nat)
    requires Endo(f) && Image(f, k + 1) == Image(f, k) && y in Image(f, k)
    ensures y in Image(f, k + m)
    decreases m
  {
    if m > 0 {
      var x: nat :| x < |f| && Iter(f, k + 1, x) == y;
      var z := Iter(f, k, x);
      assert z in Image(f, k) && f[z] == y;
      ImageStaysPut(f, k, m - 1, z);
      var w: nat :| w < |f| && Iter(f, k + m - 1, w) == z;
      assert Iter(f, k + m, w) == y;
    }
  }

  /** With only trivial cycles, a value still in use after that many steps is at rest. */
  lemma LastingValuesRest(f: seq<nat>, k: nat, y: nat)
    requires Endo(f) && OnlyTrivialCycles(f) && y in Image(f, k + |f|)
    ensures f[y] == y
  {
    var z: nat :| z < |f| && Iter(f, k + |f|, z) == y;
    AllRest(f, k + |f|, z);
  }

  /** With only trivial cycles, a step that still moves some point loses a value from the image for good. */
  lemma ImageShrinks(f: seq<nat>, k: nat, x: nat)
    requires Endo(f) && OnlyTrivialCycles(f)
    requires x < |f| && Iter(f, k + 1, x) != Iter(f, k, x)
    ensures Image(f, k + 1) < Image(f, k)
  {
    ImageWeaklyShrinks(f, k);
    var y := Iter(f, k, x);
    if Image(f, k + 1) == Image(f, k) {
      ImageStaysPut(f, k, |f|, y);
      LastingValuesRest(f, k, y);
      assert false;
    }
  }
}
