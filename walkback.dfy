/**
 * Termination of the walk in `reconstruct_plan` of src/astar.rs.
 *
 * Every node the walk steps to is a closed node, and the step taken from a
 * node depends on that node alone. So a walk that has not stopped after
 * `|closedList| + 1` nodes has met some closed node twice and goes round
 * the same cycle for ever: the source's loop would not return.
 */
module WalkBack {
  import opened Wrappers
  import opened AStar

  /** The node the walk reaches after `i` steps back from `node`, if it gets that far. */
  function StepsBack(closedList: seq<AStarNode>, node: AStarNode, i: nat): Option<AStarNode>
    decreases i
  {
    if i == 0 then Some(node)
    else match Predecessor(closedList, node)
      case None => None
      case Some(prev) => StepsBack(closedList, prev, i - 1)
  }

  /** `a + b` steps are `a` steps and then `b` more from where those end. */
  lemma {:induction false} StepsBackAdd(closedList: seq<AStarNode>, node: AStarNode, a: nat, b: nat)
    ensures StepsBack(closedList, node, a + b) ==
      match StepsBack(closedList, node, a)
      case None => None
      case Some(mid) => StepsBack(closedList, mid, b)
    decreases a
  {
    if a > 0 {
      match Predecessor(closedList, node)
      case None =>
      case Some(prev) => StepsBackAdd(closedList, prev, a - 1, b);
    }
  }

  /** A walk that gets `m` steps back gets every shorter distance too, and each node past the first is closed. */
  lemma {:induction false} StepsBackPrefix(closedList: seq<AStarNode>, node: AStarNode, i: nat, m: nat)
    requires i <= m && StepsBack(closedList, node, m).Some?
    ensures StepsBack(closedList, node, i).Some?
    ensures 0 < i ==> StepsBack(closedList, node, i).value in closedList
    decreases i
  {
    if i > 0 {
      var prev := Predecessor(closedList, node).value;
      StepsBackPrefix(closedList, prev, i - 1, m - 1);
      if i == 1 {
        assert Linked(closedList, prev, node);
      }
    }
  }

  /** `pool` with every copy of `x` removed. */
  function Without<T(==)>(pool: seq<T>, x: T): (r: seq<T>)
    ensures |r| <= |pool| && (x in pool ==> |r| < |pool|)
    ensures forall y | y in pool && y != x :: y in r
  {
    if pool == [] then []
    else (if pool[0] == x then [] else [pool[0]]) + Without(pool[1..], x)
  }

  /** More items than `pool` has slots, all drawn from `pool`: two of them are equal. */
  lemma {:induction false} Pigeonhole<T>(s: seq<T>, pool: seq<T>)
    requires |s| > |pool| && forall k | 0 <= k < |s| :: s[k] in pool
    ensures exists i, j | 0 <= i < j < |s| :: s[i] == s[j]
    decreases |pool|
  {
    if s[0] in s[1..] {
      var j :| 1 <= j < |s| && s[j] == s[0];
      assert s[0] == s[j];
    } else {
      var rest := Without(pool, s[0]);
      var tail := s[1..];
      forall k | 0 <= k < |tail| ensures tail[k] in rest {
        assert tail[k] == s[k + 1] && s[k + 1] in pool && tail[k] != s[0];
      }
      Pigeonhole(tail, rest);
      var i, j :| 0 <= i < j < |tail| && tail[i] == tail[j];
      assert s[i + 1] == s[j + 1];
    }
  }

  /** The backtracked chain has all `fuel` nodes and its first does not stop the walk exactly when the walk gets `fuel` steps back. */
  lemma {:induction false} BacktrackFull(closedList: seq<AStarNode>, node: AStarNode, fuel: nat)
    requires fuel > 0
    ensures var c := Backtrack(closedList, node, fuel);
      (|c| == fuel && !Stops(closedList, c[0])) <==> StepsBack(closedList, node, fuel).Some?
    decreases fuel
  {
    BacktrackFront(closedList, node, fuel);
    if !Stops(closedList, node) {
      var prev := Predecessor(closedList, node).value;
      if fuel > 1 {
        BacktrackFull(closedList, prev, fuel - 1);
        var c' := Backtrack(closedList, prev, fuel - 1);
        assert (c' + [node])[0] == c'[0];
      } else {
        assert Backtrack(closedList, prev, 0) == [];
      }
    }
  }

  /** A walk that meets the same node after `i` and after `j` steps gets arbitrarily far back. */
  lemma {:induction false} CycleIsEndless(closedList: seq<AStarNode>, node: AStarNode, i: nat, j: nat, k: nat)
    requires i < j && StepsBack(closedList, node, j).Some?
    requires StepsBack(closedList, node, i) == StepsBack(closedList, node, j)
    ensures StepsBack(closedList, node, k).Some?
    decreases k
  {
    if k <= j {
      StepsBackPrefix(closedList, node, k, j);
    } else {
      StepsBackAdd(closedList, node, j, k - j);
      StepsBackAdd(closedList, node, i, k - j);
      CycleIsEndless(closedList, node, i, j, i + (k - j));
    }
  }

  /** A walk that gets `|closedList| + 1` steps back meets some closed node twice. */
  lemma WalkRepeats(closedList: seq<AStarNode>, node: AStarNode) returns (i: nat, j: nat)
    requires StepsBack(closedList, node, |closedList| + 1).Some?
    ensures 0 < i < j <= |closedList| + 1
    ensures StepsBack(closedList, node, j).Some?
    ensures StepsBack(closedList, node, i) == StepsBack(closedList, node, j)
  {
    var m := |closedList| + 1;
    var s := seq(m, n requires 0 <= n < m => match StepsBack(closedList, node, n + 1) case Some(x) => x case None => node);
    forall k | 0 <= k < m
      ensures StepsBack(closedList, node, k + 1) == Some(s[k]) && s[k] in closedList
    {
      StepsBackPrefix(closedList, node, k + 1, m);
    }
    Pigeonhole(s, closedList);
    var a, b :| 0 <= a < b < |s| && s[a] == s[b];
    i, j := a + 1, b + 1;
  }

  /**
   * When `reconstruct_plan`'s walk has not stopped after `|closedList| + 1`
   * nodes it never stops: for every bound the chain uses all of it and its
   * first node still has a closed predecessor.
   */
  lemma UnstoppedWalkNeverStops(closedList: seq<AStarNode>, node: AStarNode)
    requires var c := Backtrack(closedList, node, |closedList| + 1);
      !(|c| > 0 && Stops(closedList, c[0]))
    ensures forall fuel: nat | fuel > 0 ::
      var c := Backtrack(closedList, node, fuel);
      |c| == fuel && !Stops(closedList, c[0])
  {
    var m := |closedList| + 1;
    BacktrackLinks(closedList, node, m);
    BacktrackFull(closedList, node, m);
    var i, j := WalkRepeats(closedList, node);
    forall fuel: nat | fuel > 0
      ensures var c := Backtrack(closedList, node, fuel);
        |c| == fuel && !Stops(closedList, c[0])
    {
      CycleIsEndless(closedList, node, i, j, fuel);
      BacktrackFull(closedList, node, fuel);
    }
  }
}
