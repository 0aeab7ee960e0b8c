/** Runs of a step relation. */
module Chains {

  /** The states before and after each action, every step being one the relation allows. */
  ghost predicate Chain<S, A>(step: (S, A, S) -> bool, states: seq<S>, actions: seq<A>) {
    && |states| == |actions| + 1
    && forall k :: 0 <= k < |actions| ==> step(states[k], actions[k], states[k + 1])
  }

  /** The actions can lead from one state to the other. */
  ghost predicate Leads<S(!new), A>(step: (S, A, S) -> bool, before: S, actions: seq<A>, after: S) {
    exists states :: Chain(step, states, actions) && states[0] == before && states[|actions|] == after
  }

  lemma NoStep<S(!new), A>(step: (S, A, S) -> bool, s: S)
    ensures Leads(step, s, [], s)
  {
    assert Chain(step, [s], []);
  }

  lemma OneMore<S(!new), A>(step: (S, A, S) -> bool, before: S, actions: seq<A>, mid: S, action: A, after: S)
    requires Leads(step, before, actions, mid) && step(mid, action, after)
    ensures Leads(step, before, actions + [action], after)
  {
    var states :| Chain(step, states, actions) && states[0] == before && states[|actions|] == mid;
    assert Chain(step, states + [after], actions + [action]);
  }

  lemma OneStep<S(!new), A>(step: (S, A, S) -> bool, before: S, action: A, after: S)
    requires Leads(step, before, [action], after)
    ensures step(before, action, after)
  {
    var states :| Chain(step, states, [action]) && states[0] == before && states[1] == after;
    assert step(states[0], [action][0], states[1]);
  }

  /** What one run left, another goes on from. */
  lemma ThenMore<S(!new), A>(step: (S, A, S) -> bool, before: S, first: seq<A>, mid: S, rest: seq<A>, after: S)
    requires Leads(step, before, first, mid) && Leads(step, mid, rest, after)
    ensures Leads(step, before, first + rest, after)
  {
    var a :| Chain(step, a, first) && a[0] == before && a[|first|] == mid;
    var b :| Chain(step, b, rest) && b[0] == mid && b[|rest|] == after;
    assert Chain(step, a + b[1..], first + rest);
  }
}
