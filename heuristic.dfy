/**
 * What `calc_heuristic` of src/astar.rs promises about runs of actions.
 *
 * One effect can close the cared-about gap to a goal by at most the number
 * of atoms it pins. Hence the estimate never exceeds the cost of a run that
 * reaches the goal as long as every action costs at least as much as the
 * number of atoms its effect pins. A cost of at least one per action is not
 * enough: one action that pins two goal atoms at cost 1 is overestimated.
 */
module Heuristic {
  import opened BitSet
  import opened Goap
  import opened Wrappers
  import opened AStar

  /** Among the first `n` atoms, the number the effect `post` pins. */
  function Pinned(post: WorldState, n: nat): (r: nat)
    requires n <= MaxValues
    ensures r <= n
  {
    if n == 0 then 0
    else Pinned(post, n - 1) + (if Get(post.dontcare, n - 1) then 0 else 1)
  }

  /** An effect removes at most as many cared-about differences as it pins atoms. */
  lemma {:induction false} EffectClosesAtMostPinned(from: WorldState, post: WorldState, goal: WorldState, n: nat)
    requires n <= MaxValues
    ensures CaredDiffs(from, goal, n) <= Pinned(post, n) + CaredDiffs(ApplyEffect(from, post), goal, n)
  {
    if n > 0 {
      EffectClosesAtMostPinned(from, post, goal, n - 1);
      var to := ApplyEffect(from, post);
      assert Get(to.values, n - 1) == if Get(post.dontcare, n - 1) then Get(from.values, n - 1) else Get(post.values, n - 1);
    }
  }

  /** Every action costs at least as much as the number of atoms its effect pins. */
  predicate CostsCoverPins(t: ActionTable)
    requires t.Aligned()
  {
    forall k | 0 <= k < |t.names| :: t.costs[k] >= Pinned(t.posts[k], MaxValues)
  }

  /**
   * Along one transition the estimate falls by at most the transition's
   * cost: the heuristic is consistent when costs cover pins.
   */
  lemma HeuristicConsistent(t: ActionTable, k: nat, from: WorldState, tr: Transition, goal: WorldState)
    requires Fires(t, k, from, tr) && CostsCoverPins(t)
    ensures CalcHeuristic(from, goal) <= tr.cost + CalcHeuristic(tr.to, goal)
  {
    EffectClosesAtMostPinned(from, t.posts[k], goal, MaxValues);
  }

  /**
   * Fires the actions `path` (indices into `t`) one after another from
   * `from`: the state reached and the summed cost, or `None` when an index
   * is out of range or an action's precondition fails where it is fired.
   */
  function Run(t: ActionTable, from: WorldState, path: seq<nat>): Option<(WorldState, int)>
    requires t.Aligned()
    decreases |path|
  {
    if |path| == 0 then Some((from, 0))
    else if path[0] < |t.names| && MatchesOnCare(from.values, t.pres[path[0]]) then
      match Run(t, ApplyEffect(from, t.posts[path[0]]), path[1..])
      case None => None
      case Some(rest) => Some((rest.0, t.costs[path[0]] + rest.1))
    else None
  }

  /**
   * Admissibility: when costs cover pins, the estimate from `from` is at
   * most the cost of any run from `from` that ends in a state passing the
   * goal test.
   */
  lemma {:induction false} HeuristicAdmissible(t: ActionTable, from: WorldState, goal: WorldState, path: seq<nat>)
    requires t.Aligned() && CostsCoverPins(t)
    requires Run(t, from, path).Some? && MatchesOnCare(Run(t, from, path).value.0.values, goal)
    ensures CalcHeuristic(from, goal) <= Run(t, from, path).value.1
    decreases |path|
  {
    if |path| > 0 {
      var k := path[0];
      var next := ApplyEffect(from, t.posts[k]);
      HeuristicAdmissible(t, next, goal, path[1..]);
      EffectClosesAtMostPinned(from, t.posts[k], goal, MaxValues);
    }
  }

  /** Atoms at or past `m` that `goal` leaves don't-care add nothing to the count. */
  lemma {:induction false} CaredDiffsStopsAt(from: WorldState, goal: WorldState, m: nat, n: nat)
    requires m <= n <= MaxValues
    requires forall i | m <= i < n :: Get(goal.dontcare, i)
    ensures CaredDiffs(from, goal, n) == CaredDiffs(from, goal, m)
    decreases n
  {
    if n > m {
      CaredDiffsStopsAt(from, goal, m, n - 1);
    }
  }

  /**
   * With every action costing at least 1 the estimate can still exceed the
   * cheapest run: one action of cost 1, applicable anywhere, pins atoms 0
   * and 1 to true, and from a fresh state the goal of those two atoms is
   * one action away but estimated at 2.
   */
  lemma UnitCostsOverestimate() returns (t: ActionTable, from: WorldState, goal: WorldState)
    ensures t.Aligned() && |t.names| == 1
    ensures forall k | 0 <= k < |t.costs| :: t.costs[k] >= 1
    ensures Run(t, from, [0]).Some? && MatchesOnCare(Run(t, from, [0]).value.0.values, goal)
    ensures CalcHeuristic(from, goal) == 2 > Run(t, from, [0]).value.1 == 1
  {
    from := NewWorldState();
    goal := SetIdx(SetIdx(NewWorldState(), 0, true), 1, true);
    t := ActionTable(["both"], [NewWorldState()], [1], [goal]);
    var to := ApplyEffect(from, goal);
    assert MatchesOnCare(from.values, t.pres[0]);
    assert MatchesOnCare(to.values, goal);
    assert Run(t, to, []) == Some((to, 0));
    assert [0][1..] == [];
    CaredDiffsStopsAt(from, goal, 2, MaxValues);
  }
}
