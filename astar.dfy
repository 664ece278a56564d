/**
 * Model of src/astar.rs: the heuristic, the transition iterator, and the
 * `AStar` search over open and closed lists of nodes.
 *
 * Membership in either list is decided by the node's `values` alone; a
 * node records its parent's state, not the parent node, and the plan is
 * rebuilt by looking that state up in the closed list again.
 */
module AStar {
  import opened BitSet
  import opened Goap
  import opened Wrappers

  /** `MAX_OPEN` */
  const MaxOpen: nat := 1024
  /** `MAX_CLOSED` */
  const MaxClosed: nat := 1024

  /** `AStarNode`: a state, its parent's state, cost so far, estimate, their sum, and the action that produced it. */
  datatype AStarNode = AStarNode(ws: WorldState, parentws: Option<WorldState>,
                                 g: int, h: int, f: int, actionName: string)

  /** `AStarPlan`: the (action, resulting state) entries in order, and the cost. */
  datatype AStarPlan = AStarPlan(entries: seq<(string, WorldState)>, cost: int)

  /** One item yielded by `StateTransIter`: action name, action cost, resulting state. */
  datatype Transition = Transition(name: string, cost: int, to: WorldState)

  // ---------------------------------------------------------------------
  // Comparisons under a care mask

  /** `reference.dontcare ^ full()`: the atoms `reference` pins. */
  function Care(reference: WorldState): (r: BitSetU64)
    ensures forall i | 0 <= i < MaxValues :: Get(r, i) == !Get(reference.dontcare, i)
  {
    Xor(reference.dontcare, Full())
  }

  /** `values` has `reference`'s value at every atom `reference` pins. */
  predicate AgreesOn(values: BitSetU64, reference: WorldState)
  {
    forall i | 0 <= i < MaxValues :: !Get(reference.dontcare, i) ==> Get(values, i) == Get(reference.values, i)
  }

  lemma MaskedEqualIff(values: BitSetU64, reference: WorldState)
    ensures var care := Care(reference);
      (And(reference.values, care) == And(values, care)) <==> AgreesOn(values, reference)
  {
    var care := Care(reference);
    var a, b := And(reference.values, care), And(values, care);
    if AgreesOn(values, reference) {
      Extensionality(a, b);
    } else {
      var i :| 0 <= i < MaxValues && !Get(reference.dontcare, i) && Get(values, i) != Get(reference.values, i);
      assert Get(a, i) != Get(b, i);
    }
  }

  /**
   * `(reference.values & care) == (values & care)`: the precondition test
   * of `StateTransIter::next` and the goal test of `plan`. Only the tested
   * state's values are read; its own don't-care bits play no part.
   */
  function MatchesOnCare(values: BitSetU64, reference: WorldState): (r: bool)
    ensures r <==> AgreesOn(values, reference)
  {
    var care := Care(reference);
    MaskedEqualIff(values, reference);
    And(reference.values, care) == And(values, care)
  }

  /**
   * With states built by `new` and `set_idx`, a precondition that requires
   * an atom to be true is met only where that atom is known and true.
   */
  lemma TruePreconditionNeedsKnownAtom(from: WorldState, pre: WorldState, i: nat)
    requires i < MaxAtoms && Canonical(from)
    requires !Get(pre.dontcare, i) && Get(pre.values, i)
    requires MatchesOnCare(from.values, pre)
    ensures !Get(from.dontcare, i) && Get(from.values, i)
  {
  }

  // ---------------------------------------------------------------------
  // Heuristic

  /** Among the first `n` atoms, those `to` pins and on which `from`'s value differs. */
  function CaredDiffs(from: WorldState, to: WorldState, n: nat): (r: nat)
    requires n <= MaxValues
    ensures r <= n
  {
    if n == 0 then 0
    else CaredDiffs(from, to, n - 1)
         + (if !Get(to.dontcare, n - 1) && Get(from.values, n - 1) != Get(to.values, n - 1) then 1 else 0)
  }

  lemma {:induction false} CaredDiffsZero(from: WorldState, to: WorldState, n: nat)
    requires n <= MaxValues
    ensures CaredDiffs(from, to, n) == 0 <==>
            forall i | 0 <= i < n :: !Get(to.dontcare, i) ==> Get(from.values, i) == Get(to.values, i)
  {
    if n > 0 {
      CaredDiffsZero(from, to, n - 1);
    }
  }

  lemma {:induction false} CountMatchesCaredDiffs(from: WorldState, to: WorldState, diff: BitSetU64, n: nat)
    requires n <= MaxValues
    requires forall i | 0 <= i < MaxValues ::
               Get(diff, i) == (!Get(to.dontcare, i) && Get(from.values, i) != Get(to.values, i))
    ensures CountTrue(diff.bits[..n]) == CaredDiffs(from, to, n)
  {
    if n > 0 {
      CountMatchesCaredDiffs(from, to, diff, n - 1);
      assert diff.bits[..n][..n - 1] == diff.bits[..n - 1];
    }
  }

  /**
   * `calc_heuristic(from, to)`: the Hamming distance between the value bits
   * over the atoms `to` pins. It is zero exactly when `from` passes the
   * goal test against `to`.
   */
  function CalcHeuristic(from: WorldState, to: WorldState): (r: int)
    ensures r == CaredDiffs(from, to, MaxValues)
    ensures 0 <= r <= MaxValues
    ensures r == 0 <==> MatchesOnCare(from.values, to)
  {
    var care := Xor(to.dontcare, Full());
    var diff := Xor(And(from.values, care), And(to.values, care));
    CountMatchesCaredDiffs(from, to, diff, MaxValues);
    assert diff.bits[..MaxValues] == diff.bits;
    CaredDiffsZero(from, to, MaxValues);
    CountOnes(diff)
  }

  // ---------------------------------------------------------------------
  // Transitions

  /**
   * The state `StateTransIter::next` yields: where the effect pins an atom
   * its value is written and the atom becomes known; elsewhere `from` is kept.
   */
  function ApplyEffect(from: WorldState, post: WorldState): (r: WorldState)
    ensures Yields(from, post, r)
  {
    var unaffected := post.dontcare;
    var affected := Xor(unaffected, Full());
    WorldState(Or(And(from.values, unaffected), And(post.values, affected)),
               AndAssign(from.dontcare, unaffected))
  }

  /** `values` are what the effect `post` makes of `from`'s values: pinned atoms take `post`'s value, the others keep `from`'s. */
  ghost predicate YieldsValues(from: WorldState, post: WorldState, values: BitSetU64)
  {
    forall i | 0 <= i < MaxValues ::
      Get(values, i) == if Get(post.dontcare, i) then Get(from.values, i) else Get(post.values, i)
  }

  /** `to` is what the effect `post` makes of `from`: pinned atoms take `post`'s value and become known, the others are kept. */
  ghost predicate Yields(from: WorldState, post: WorldState, to: WorldState)
  {
    && YieldsValues(from, post, to.values)
    && forall i | 0 <= i < MaxValues ::
         Get(to.dontcare, i) == (Get(post.dontcare, i) && Get(from.dontcare, i))
  }

  /** The effect's result is determined by `Yields`. */
  lemma YieldsIsFunctional(from: WorldState, post: WorldState, to: WorldState)
    requires Yields(from, post, to)
    ensures to == ApplyEffect(from, post)
  {
    var r := ApplyEffect(from, post);
    Extensionality(to.values, r.values);
    Extensionality(to.dontcare, r.dontcare);
  }

  /** An effect that pins nothing leaves the state bit for bit unchanged. */
  lemma EmptyEffectIsIdentity(from: WorldState, post: WorldState)
    requires post.dontcare == Full()
    ensures ApplyEffect(from, post) == from
  {
    var r := ApplyEffect(from, post);
    Extensionality(r.values, from.values);
    Extensionality(r.dontcare, from.dontcare);
  }

  /** Applying a canonical effect to a canonical state gives a canonical state. */
  lemma ApplyEffectKeepsCanonical(from: WorldState, post: WorldState)
    requires Canonical(from) && Canonical(post)
    ensures Canonical(ApplyEffect(from, post))
  {
  }

  /**
   * Action `k` of `t` applies to `from` and `tr` is what it yields: its
   * name, its cost and the state its effect produces.
   */
  predicate Fires(t: ActionTable, k: nat, from: WorldState, tr: Transition)
  {
    && t.Aligned() && k < |t.names|
    && AgreesOn(from.values, t.pres[k])
    && tr == Transition(t.names[k], t.costs[k], ApplyEffect(from, t.posts[k]))
  }

  /** No action of `t` at positions `lo` to `hi - 1` applies to `from` (stated by recursion; see `SkipsMeans`). */
  predicate Skips(t: ActionTable, from: WorldState, lo: nat, hi: nat)
    requires hi <= |t.pres|
    decreases hi - lo
  {
    hi <= lo || (!AgreesOn(from.values, t.pres[lo]) && Skips(t, from, lo + 1, hi))
  }

  lemma {:induction false} SkipsMeans(t: ActionTable, from: WorldState, lo: nat, hi: nat)
    requires hi <= |t.pres|
    ensures Skips(t, from, lo, hi) <==> forall j | lo <= j < hi :: !AgreesOn(from.values, t.pres[j])
    decreases hi - lo
  {
    if lo < hi {
      SkipsMeans(t, from, lo + 1, hi);
    }
  }

  /** A run of skipped actions grows by one more that does not apply. */
  lemma {:induction false} SkipsExtend(t: ActionTable, from: WorldState, lo: nat, hi: nat)
    requires lo <= hi < |t.pres| && Skips(t, from, lo, hi) && !AgreesOn(from.values, t.pres[hi])
    ensures Skips(t, from, lo, hi + 1)
    decreases hi - lo
  {
    if lo < hi {
      SkipsExtend(t, from, lo + 1, hi);
    }
  }

  /**
   * `StateTransIter::next`: scans the action table from position `k` and
   * yields the first action whose precondition `from` meets, with its name,
   * its cost and the state its effect produces; `k'` is where the scan resumes.
   */
  method Next(from: WorldState, t: ActionTable, k: nat) returns (tr: Option<Transition>, k': nat)
    requires t.Aligned() && k <= |t.names|
    ensures k <= k' <= |t.names|
    ensures tr.None? ==> k' == |t.names|
    ensures tr.None? ==> Skips(t, from, k, k')
    ensures tr.Some? ==> k < k' && Skips(t, from, k, k' - 1) && Fires(t, k' - 1, from, tr.value)
  {
    k' := k;
    while k' < |t.names|
      invariant k <= k' <= |t.names|
      invariant Skips(t, from, k, k')
    {
      var pre, post := t.pres[k'], t.posts[k'];
      var name, cost := t.names[k'], t.costs[k'];
      k' := k' + 1;
      if MatchesOnCare(from.values, pre) {
        return Some(Transition(name, cost, ApplyEffect(from, post))), k';
      }
      SkipsExtend(t, from, k, k' - 1);
    }
    return None, k';
  }

  // ---------------------------------------------------------------------
  // The open and closed lists

  /** `iter().position(|o| o.ws.values == values)`: `dontcare` is ignored. */
  function FirstWithValues(nodes: seq<AStarNode>, values: BitSetU64): (r: Option<nat>)
    ensures r.Some? ==> r.value < |nodes| && nodes[r.value].ws.values == values
    ensures r.Some? ==> forall j | 0 <= j < r.value :: nodes[j].ws.values != values
    ensures r.None? ==> forall j | 0 <= j < |nodes| :: nodes[j].ws.values != values
  {
    if nodes == [] then None
    else if nodes[0].ws.values == values then Some(0)
    else match FirstWithValues(nodes[1..], values)
      case None => None
      case Some(i) => Some(i + 1)
  }

  /**
   * The index `min_by_key(|n| n.f)` picks: a node of least `f`, the first
   * one among ties.
   */
  function MinFIndex(nodes: seq<AStarNode>): (r: nat)
    requires |nodes| > 0
    ensures r < |nodes|
    ensures forall j | 0 <= j < |nodes| :: nodes[r].f <= nodes[j].f
    ensures forall j | 0 <= j < r :: nodes[r].f < nodes[j].f
  {
    if |nodes| == 1 then 0
    else
      var k := MinFIndex(nodes[..|nodes| - 1]);
      if nodes[|nodes| - 1].f < nodes[k].f then |nodes| - 1 else k
  }

  /** `Vec::swap_remove(i)`: the last element takes slot `i`. */
  function SwapRemove<T>(s: seq<T>, i: nat): (r: seq<T>)
    requires i < |s|
    ensures |r| == |s| - 1
    ensures multiset(r) + multiset{s[i]} == multiset(s)
    ensures forall j | 0 <= j < |r| && j != i :: r[j] == s[j]
    ensures i < |r| ==> r[i] == s[|s| - 1]
    ensures forall x | x in r :: x in s
  {
    var last := |s| - 1;
    if i == last then
      assert s == s[..last] + [s[last]];
      s[..last]
    else
      assert s == s[..i] + [s[i]] + s[i + 1..last] + [s[last]];
      s[..i] + [s[last]] + s[i + 1..last]
  }

  /** The first stored node with `ws`'s values costs at most `cost`: the `Some(idx) => Some(idx)` arm. */
  predicate Kept(nodes: seq<AStarNode>, ws: WorldState, cost: int)
  {
    match FirstWithValues(nodes, ws.values)
    case Some(idx) => nodes[idx].g <= cost
    case None => false
  }

  /**
   * One list's share of an expansion step: when the first stored node with
   * the same values is strictly dearer than `cost` it is removed
   * (`swap_remove`, or `clear` for a one-element list); the flag tells
   * whether a stored node at least as cheap was kept.
   */
  function Supersede(nodes: seq<AStarNode>, ws: WorldState, cost: int): (r: (seq<AStarNode>, bool))
    ensures r.1 <==> Kept(nodes, ws, cost)
    ensures FirstWithValues(nodes, ws.values).None? || r.1 ==> r.0 == nodes
    ensures var idx := FirstWithValues(nodes, ws.values);
      idx.Some? && !r.1 ==> multiset(r.0) + multiset{nodes[idx.value]} == multiset(nodes)
    ensures forall n | n in r.0 :: n in nodes
  {
    match FirstWithValues(nodes, ws.values)
    case Some(idx) =>
      if cost < nodes[idx].g then
        (if |nodes| > 1 then SwapRemove(nodes, idx) else [], false)
      else (nodes, true)
    case None => (nodes, false)
  }

  /**
   * `cur` is the node `min_by_key` selects from `before`, and `after` is
   * what the open list becomes: that node `swap_remove`d, or a one-node
   * list left as it is.
   */
  predicate Popped(before: seq<AStarNode>, cur: AStarNode, after: seq<AStarNode>)
    requires |before| > 0
  {
    var i := MinFIndex(before);
    && cur == before[i]
    && after == if |before| > 1 then SwapRemove(before, i) else before
  }

  /** The node `plan` pushes for a transition out of `cur`. */
  function Successor(cur: AStarNode, tr: Transition, goal: WorldState): (r: AStarNode)
    ensures r.ws == tr.to && r.parentws == Some(cur.ws) && r.actionName == tr.name
    ensures r.g == cur.g + tr.cost && r.g <= r.f <= r.g + MaxValues
    ensures r.h == r.f - r.g == CaredDiffs(tr.to, goal, MaxValues)
    ensures r.f == r.g <==> MatchesOnCare(tr.to.values, goal)
  {
    var cost := cur.g + tr.cost;
    var h := CalcHeuristic(tr.to, goal);
    AStarNode(tr.to, Some(cur.ws), cost, h, cost + h, tr.name)
  }

  /**
   * The body of `plan`'s transition loop for one yielded transition: both
   * lists drop a dearer node with the same values, and the successor is
   * pushed to open exactly when neither list kept a node at least as cheap.
   * No other node is added to either list.
   */
  function Expand(openList: seq<AStarNode>, closedList: seq<AStarNode>, cur: AStarNode,
                  tr: Transition, goal: WorldState): (r: (seq<AStarNode>, seq<AStarNode>))
    ensures var cost := cur.g + tr.cost;
      var pushed := !Kept(openList, tr.to, cost) && !Kept(closedList, tr.to, cost);
      && (pushed ==> |r.0| > 0 && r.0[|r.0| - 1] == Successor(cur, tr, goal))
      && (!pushed ==> |r.0| <= |openList|)
      && |r.0| <= |openList| + 1 && |r.1| <= |closedList|
    ensures forall n | n in r.0 :: n in openList || n == Successor(cur, tr, goal)
    ensures forall n | n in r.1 :: n in closedList
  {
    var cost := cur.g + tr.cost;
    var (openList', keptOpen) := Supersede(openList, tr.to, cost);
    var (closedList', keptClosed) := Supersede(closedList, tr.to, cost);
    if !keptOpen && !keptClosed then
      (openList' + [Successor(cur, tr, goal)], closedList')
    else (openList', closedList')
  }

  /** `Expand` in terms of the two `Supersede` results. */
  lemma ExpandBySupersede(openList: seq<AStarNode>, closedList: seq<AStarNode>, cur: AStarNode,
                          tr: Transition, goal: WorldState)
    ensures var o := Supersede(openList, tr.to, cur.g + tr.cost);
      var c := Supersede(closedList, tr.to, cur.g + tr.cost);
      Expand(openList, closedList, cur, tr, goal) ==
        if !o.1 && !c.1 then (o.0 + [Successor(cur, tr, goal)], c.0) else (o.0, c.0)
  {
  }

  // ---------------------------------------------------------------------
  // What every node in the search satisfies

  /** Action `k` of `t` is met by `parent` and turns it into `n`'s state, under `n`'s action name. */
  ghost predicate Produces(t: ActionTable, k: nat, parent: WorldState, n: AStarNode)
  {
    && t.Aligned() && k < |t.names|
    && t.names[k] == n.actionName
    && AgreesOn(parent.values, t.pres[k])
    && Yields(parent, t.posts[k], n.ws)
  }

  /**
   * A node as `plan` builds it: `h` is the heuristic to the goal (see
   * `CalcHeuristic`) and `f` is `g + h`; the root wraps the start state with `g == 0` under the name
   * "root"; every other node is the result of a registered action met by
   * its parent's state.
   */
  ghost predicate NodeOk(n: AStarNode, start: WorldState, goal: WorldState, t: ActionTable)
  {
    && n.h == CaredDiffs(n.ws, goal, MaxValues)
    && n.f == n.g + n.h
    && (n.parentws.None? ==> n.ws == start && n.g == 0 && n.actionName == "root")
    && (n.parentws.Some? ==> exists k :: Produces(t, k, n.parentws.value, n))
  }

  /** Every node of `nodes` is well built (stated by recursion; see `AllOkMeans`). */
  ghost predicate AllOk(nodes: seq<AStarNode>, start: WorldState, goal: WorldState, t: ActionTable)
    decreases |nodes|
  {
    |nodes| == 0 || (NodeOk(nodes[0], start, goal, t) && AllOk(nodes[1..], start, goal, t))
  }

  lemma {:induction false} AllOkMeans(nodes: seq<AStarNode>, start: WorldState, goal: WorldState, t: ActionTable)
    ensures AllOk(nodes, start, goal, t) <==> forall n | n in nodes :: NodeOk(n, start, goal, t)
    decreases |nodes|
  {
    if |nodes| > 0 {
      AllOkMeans(nodes[1..], start, goal, t);
      assert forall n | n in nodes :: n == nodes[0] || n in nodes[1..];
    }
  }

  /** A node taken from a well-built list is well built. */
  lemma AllOkAt(nodes: seq<AStarNode>, n: AStarNode, start: WorldState, goal: WorldState, t: ActionTable)
    requires AllOk(nodes, start, goal, t) && n in nodes
    ensures NodeOk(n, start, goal, t)
  {
    AllOkMeans(nodes, start, goal, t);
  }

  /** Pushing a well-built node keeps a list well built. */
  lemma AllOkPush(nodes: seq<AStarNode>, n: AStarNode, start: WorldState, goal: WorldState, t: ActionTable)
    requires AllOk(nodes, start, goal, t) && NodeOk(n, start, goal, t)
    ensures AllOk(nodes + [n], start, goal, t)
  {
    AllOkMeans(nodes, start, goal, t);
    AllOkMeans(nodes + [n], start, goal, t);
  }

  /** A list whose nodes all come from a well-built list is well built. */
  lemma AllOkSubset(nodes: seq<AStarNode>, from: seq<AStarNode>, start: WorldState, goal: WorldState, t: ActionTable)
    requires AllOk(from, start, goal, t) && forall n | n in nodes :: n in from
    ensures AllOk(nodes, start, goal, t)
  {
    AllOkMeans(from, start, goal, t);
    AllOkMeans(nodes, start, goal, t);
  }

  /** An expansion step keeps every node in both lists well built. */
  lemma ExpandKeepsNodesOk(openList: seq<AStarNode>, closedList: seq<AStarNode>, cur: AStarNode,
                           tr: Transition, start: WorldState, goal: WorldState, t: ActionTable, k: nat)
    requires Sound(openList, closedList, start, goal, t)
    requires Fires(t, k, cur.ws, tr)
    ensures var r := Expand(openList, closedList, cur, tr, goal);
      Sound(r.0, r.1, start, goal, t)
  {
    var next := Successor(cur, tr, goal);
    assert Produces(t, k, cur.ws, next);
    var r := Expand(openList, closedList, cur, tr, goal);
    AllOkMeans(openList, start, goal, t);
    AllOkMeans(r.0, start, goal, t);
    AllOkSubset(r.1, closedList, start, goal, t);
  }

  /**
   * The transitions `StateTransIter` yields out of `from` when it scans
   * the action table from position `k`: one per action whose precondition
   * `from` meets (see `MatchesOnCare`), in table order.
   */
  function Transitions(t: ActionTable, from: WorldState, k: nat): (trs: seq<Transition>)
    requires t.Aligned() && k <= |t.names|
    ensures |trs| <= |t.names| - k
    decreases |t.names| - k
  {
    if k == |t.names| then []
    else if AgreesOn(from.values, t.pres[k]) then
      [Transition(t.names[k], t.costs[k], ApplyEffect(from, t.posts[k]))] + Transitions(t, from, k + 1)
    else Transitions(t, from, k + 1)
  }

  /** A transition is yielded from position `k` on exactly when an action at or past `k` fires it. */
  lemma {:induction false} TransitionsMeans(t: ActionTable, from: WorldState, k: nat, tr: Transition)
    requires t.Aligned() && k <= |t.names|
    ensures tr in Transitions(t, from, k) <==> exists j | k <= j < |t.names| :: Fires(t, j, from, tr)
    decreases |t.names| - k
  {
    if k < |t.names| {
      TransitionsMeans(t, from, k + 1, tr);
      if Fires(t, k, from, tr) {
        assert tr == Transitions(t, from, k)[0];
      }
    }
  }

  /** Actions that do not apply yield nothing. */
  lemma {:induction false} TransitionsSkip(t: ActionTable, from: WorldState, lo: nat, hi: nat)
    requires t.Aligned() && lo <= hi <= |t.names| && Skips(t, from, lo, hi)
    ensures Transitions(t, from, lo) == Transitions(t, from, hi)
    decreases hi - lo
  {
    if lo < hi {
      TransitionsSkip(t, from, lo + 1, hi);
    }
  }

  /** An action that fires yields its transition first. */
  lemma TransitionsFire(t: ActionTable, from: WorldState, hi: nat, tr: Transition)
    requires 0 < hi && Fires(t, hi - 1, from, tr)
    ensures Transitions(t, from, hi - 1) == [tr] + Transitions(t, from, hi)
  {
  }

  /**
   * What `Next` reports: after passing over the actions from `lo` to
   * `hi - 2`, action `hi - 1` fires `tr`, and the rest is yielded from `hi`.
   */
  lemma TransitionsNext(t: ActionTable, from: WorldState, lo: nat, hi: nat, tr: Transition)
    requires lo < hi && Fires(t, hi - 1, from, tr) && Skips(t, from, lo, hi - 1)
    ensures Transitions(t, from, lo) == [tr] + Transitions(t, from, hi)
  {
    TransitionsSkip(t, from, lo, hi - 1);
    TransitionsFire(t, from, hi, tr);
  }

  /**
   * The transition loop of `plan` over the transitions `trs` out of `cur`:
   * each is relaxed with `Expand`, in order, and the loop stops early (flag
   * set) as soon as open reaches `MAX_OPEN`.
   */
  function ExpandOver(openList: seq<AStarNode>, closedList: seq<AStarNode>, cur: AStarNode,
                      trs: seq<Transition>, goal: WorldState): (r: (seq<AStarNode>, seq<AStarNode>, bool))
    requires |openList| < MaxOpen
    ensures r.2 <==> |r.0| == MaxOpen
    ensures |r.0| <= MaxOpen && |r.1| <= |closedList|
    decreases |trs|
  {
    if |trs| == 0 then (openList, closedList, false)
    else
      var (o, c) := Expand(openList, closedList, cur, trs[0], goal);
      if |o| == MaxOpen then (o, c, true) else ExpandOver(o, c, cur, trs[1..], goal)
  }

  /** One more transition in front: it is relaxed first, and the rest follow unless open is full. */
  lemma ExpandOverCons(openList: seq<AStarNode>, closedList: seq<AStarNode>, cur: AStarNode,
                       tr: Transition, rest: seq<Transition>, goal: WorldState)
    requires |openList| < MaxOpen
    ensures var (o, c) := Expand(openList, closedList, cur, tr, goal);
      ExpandOver(openList, closedList, cur, [tr] + rest, goal) ==
        if |o| == MaxOpen then (o, c, true) else ExpandOver(o, c, cur, rest, goal)
  {
    assert ([tr] + rest)[0] == tr && ([tr] + rest)[1..] == rest;
  }

  /** The whole transition loop keeps every node in both lists well built. */
  lemma {:induction false} ExpandOverKeepsNodesOk(openList: seq<AStarNode>, closedList: seq<AStarNode>, cur: AStarNode,
                                                  trs: seq<Transition>, start: WorldState, goal: WorldState, t: ActionTable)
    requires |openList| < MaxOpen && Sound(openList, closedList, start, goal, t)
    requires forall tr | tr in trs :: exists k :: Fires(t, k, cur.ws, tr)
    ensures var r := ExpandOver(openList, closedList, cur, trs, goal);
      Sound(r.0, r.1, start, goal, t)
    decreases |trs|
  {
    if |trs| > 0 {
      assert trs[0] in trs;
      var k :| Fires(t, k, cur.ws, trs[0]);
      ExpandKeepsNodesOk(openList, closedList, cur, trs[0], start, goal, t, k);
      var (o, c) := Expand(openList, closedList, cur, trs[0], goal);
      if |o| < MaxOpen {
        assert forall tr | tr in trs[1..] :: tr in trs;
        ExpandOverKeepsNodesOk(o, c, cur, trs[1..], start, goal, t);
      }
    }
  }

  /** The transition loop over everything `cur` yields keeps every node in both lists well built. */
  lemma ExpandAllKeepsNodesOk(openList: seq<AStarNode>, closedList: seq<AStarNode>, cur: AStarNode,
                              t: ActionTable, start: WorldState, goal: WorldState)
    requires t.Aligned() && |openList| < MaxOpen && Sound(openList, closedList, start, goal, t)
    ensures var r := ExpandOver(openList, closedList, cur, Transitions(t, cur.ws, 0), goal);
      Sound(r.0, r.1, start, goal, t)
  {
    var trs := Transitions(t, cur.ws, 0);
    forall tr | tr in trs
      ensures exists k :: Fires(t, k, cur.ws, tr)
    {
      TransitionsMeans(t, cur.ws, 0, tr);
    }
    ExpandOverKeepsNodesOk(openList, closedList, cur, trs, start, goal, t);
  }

  // ---------------------------------------------------------------------
  // Plan reconstruction

  /**
   * The nodes `reconstruct_plan` visits, oldest first: from `node` it
   * follows `parentws` to the first closed node with those values, and
   * stops at a node without a parent or whose parent is not in closed.
   * At most `fuel` nodes are visited.
   */
  function Backtrack(closedList: seq<AStarNode>, node: AStarNode, fuel: nat): (chain: seq<AStarNode>)
    ensures |chain| <= fuel
    ensures fuel > 0 ==> |chain| > 0 && chain[|chain| - 1] == node
    decreases fuel
  {
    if fuel == 0 then []
    else match node.parentws
      case None => [node]
      case Some(p) =>
        match FirstWithValues(closedList, p.values)
        case None => [node]
        case Some(i) => Backtrack(closedList, closedList[i], fuel - 1) + [node]
  }

  /** Plan entries for a chain of nodes: each node's action name and state. */
  function Entries(chain: seq<AStarNode>): (r: seq<(string, WorldState)>)
    ensures |r| == |chain|
    ensures forall i | 0 <= i < |chain| :: r[i] == (chain[i].actionName, chain[i].ws)
  {
    seq(|chain|, i requires 0 <= i < |chain| => (chain[i].actionName, chain[i].ws))
  }

  /** One step of the walk: a node that does not stop the walk is preceded by its linked node's chain. */
  lemma BacktrackFront(closedList: seq<AStarNode>, node: AStarNode, fuel: nat)
    requires fuel > 0
    ensures Stops(closedList, node) ==> Backtrack(closedList, node, fuel) == [node]
    ensures !Stops(closedList, node) ==>
      var prev := closedList[FirstWithValues(closedList, node.parentws.value.values).value];
      Backtrack(closedList, node, fuel) == Backtrack(closedList, prev, fuel - 1) + [node]
  {
  }

  /** The node `reconstruct_plan` visits after `node`: `entry_in_closed` of its parent, if it has one. */
  function Predecessor(closedList: seq<AStarNode>, node: AStarNode): (r: Option<AStarNode>)
    ensures r.None? <==> Stops(closedList, node)
    ensures r.Some? ==> Linked(closedList, r.value, node)
  {
    match node.parentws
    case None => None
    case Some(p) =>
      match FirstWithValues(closedList, p.values)
      case None => None
      case Some(i) => Some(closedList[i])
  }

  /**
   * The state of `reconstruct_plan`'s loop after `steps` visits: `suffix`
   * holds the visited nodes, oldest first, and is the tail of the whole
   * walk; `current` is the node still to visit, if any.
   */
  ghost predicate Walked(closedList: seq<AStarNode>, goalNode: AStarNode, fuel: nat,
                         current: Option<AStarNode>, steps: nat, suffix: seq<AStarNode>)
  {
    && steps <= fuel && |suffix| == steps
    && (current.Some? ==>
          && Backtrack(closedList, goalNode, fuel) == Backtrack(closedList, current.value, fuel - steps) + suffix
          && (steps > 0 ==> !Stops(closedList, suffix[0])))
    && (current.None? ==>
          && Backtrack(closedList, goalNode, fuel) == suffix
          && |suffix| > 0 && Stops(closedList, suffix[0]))
  }

  lemma WalkStarts(closedList: seq<AStarNode>, goalNode: AStarNode, fuel: nat)
    ensures Walked(closedList, goalNode, fuel, Some(goalNode), 0, [])
  {
    var whole := Backtrack(closedList, goalNode, fuel);
    assert whole + [] == whole;
  }

  /** Pushing `node` in front of `suffix` when the walk from `node` is `prior` followed by `node`. */
  lemma ConcatPushFront(whole: seq<AStarNode>, prior: seq<AStarNode>, node: AStarNode, suffix: seq<AStarNode>)
    requires whole == (prior + [node]) + suffix
    ensures whole == prior + ([node] + suffix)
  {
  }

  /** One visit keeps the loop state consistent with the whole walk. */
  lemma WalkAdvances(closedList: seq<AStarNode>, goalNode: AStarNode, fuel: nat,
                     node: AStarNode, steps: nat, suffix: seq<AStarNode>)
    requires Walked(closedList, goalNode, fuel, Some(node), steps, suffix) && steps < fuel
    ensures Walked(closedList, goalNode, fuel, Predecessor(closedList, node), steps + 1, [node] + suffix)
  {
    var rest := fuel - steps;
    var whole := Backtrack(closedList, goalNode, fuel);
    var here := Backtrack(closedList, node, rest);
    assert whole == here + suffix;
    BacktrackFront(closedList, node, rest);
    var next := Predecessor(closedList, node);
    if next.None? {
      assert here == [node];
    } else {
      var prior := Backtrack(closedList, next.value, rest - 1);
      assert here == prior + [node];
      ConcatPushFront(whole, prior, node, suffix);
    }
  }

  /** When the loop stops, the visited nodes are the whole walk, and it stopped early exactly where the source's loop would. */
  lemma WalkEnds(closedList: seq<AStarNode>, goalNode: AStarNode, fuel: nat,
                 current: Option<AStarNode>, steps: nat, suffix: seq<AStarNode>)
    requires Walked(closedList, goalNode, fuel, current, steps, suffix)
    requires current.None? || steps == fuel
    ensures Backtrack(closedList, goalNode, fuel) == suffix
    ensures current.None? <==> |suffix| > 0 && Stops(closedList, suffix[0])
  {
    if current.Some? {
      assert Backtrack(closedList, current.value, 0) == [];
      assert [] + suffix == suffix;
    }
  }

  /** Pushing a node to the front of a chain pushes its entry to the front of the plan. */
  lemma EntriesPushFront(node: AStarNode, chain: seq<AStarNode>)
    ensures Entries([node] + chain) == [(node.actionName, node.ws)] + Entries(chain)
  {
    var a, b := Entries([node] + chain), [(node.actionName, node.ws)] + Entries(chain);
    assert |a| == |b|;
    forall i | 0 <= i < |a| ensures a[i] == b[i] {
      if i > 0 {
        assert ([node] + chain)[i] == chain[i - 1];
      }
    }
  }

  /** `prev` is the node `reconstruct_plan` steps to from `next`: the first closed node with `next`'s parent's values. */
  predicate Linked(closedList: seq<AStarNode>, prev: AStarNode, next: AStarNode)
  {
    && next.parentws.Some?
    && var p := FirstWithValues(closedList, next.parentws.value.values);
       p.Some? && prev == closedList[p.value]
  }

  /** `reconstruct_plan` stops after `n`: it has no parent, or no closed node has its parent's values. */
  predicate Stops(closedList: seq<AStarNode>, n: AStarNode)
  {
    n.parentws.None? || FirstWithValues(closedList, n.parentws.value.values).None?
  }

  /**
   * Consecutive nodes of a backtracked chain are linked, and a chain
   * shorter than its fuel starts at a node where the walk stops.
   */
  lemma {:induction false} BacktrackLinks(closedList: seq<AStarNode>, node: AStarNode, fuel: nat)
    ensures var c := Backtrack(closedList, node, fuel);
      forall i | 0 <= i < |c| - 1 :: Linked(closedList, c[i], c[i + 1])
    ensures var c := Backtrack(closedList, node, fuel);
      0 < |c| < fuel ==> Stops(closedList, c[0])
    decreases fuel
  {
    var c := Backtrack(closedList, node, fuel);
    if fuel > 0 && !Stops(closedList, node) {
      var prev := closedList[FirstWithValues(closedList, node.parentws.value.values).value];
      BacktrackLinks(closedList, prev, fuel - 1);
      var c' := Backtrack(closedList, prev, fuel - 1);
      assert c == c' + [node];
      forall i | 0 <= i < |c| - 1
        ensures Linked(closedList, c[i], c[i + 1])
      {
        if i < |c'| - 1 {
          assert c[i] == c'[i] && c[i + 1] == c'[i + 1];
        } else {
          assert c[i] == prev && c[i + 1] == node;
        }
      }
    }
  }

  /**
   * One step of a plan, up to don't-care bits: a registered action called
   * `name` whose precondition `before` meets and whose effect on `before`
   * yields `after`'s values.
   */
  ghost predicate IsStep(t: ActionTable, before: WorldState, name: string, after: WorldState)
  {
    exists k ::
      && 0 <= k < |t.names| && t.Aligned()
      && t.names[k] == name
      && AgreesOn(before.values, t.pres[k])
      && YieldsValues(before, t.posts[k], after.values)
  }

  /** Every entry of a plan follows from the one before by an action step. */
  ghost predicate IsRun(t: ActionTable, entries: seq<(string, WorldState)>)
  {
    forall i | 0 <= i < |entries| - 1 :: IsStep(t, entries[i].1, entries[i + 1].0, entries[i + 1].1)
  }

  /** A well-built node with a parent makes a step from any state with its parent's values. */
  lemma LinkedStep(closedList: seq<AStarNode>, prev: AStarNode, next: AStarNode,
                   start: WorldState, goal: WorldState, t: ActionTable)
    requires Linked(closedList, prev, next) && NodeOk(next, start, goal, t)
    ensures IsStep(t, prev.ws, next.actionName, next.ws)
  {
    var parent := next.parentws.value;
    var k: nat :| Produces(t, k, parent, next);
    assert prev.ws.values == parent.values;
  }

  /** Every node of a chain backtracked from a well-built node over well-built closed nodes is well built. */
  lemma ChainNodesOk(closedList: seq<AStarNode>, node: AStarNode, fuel: nat,
                     start: WorldState, goal: WorldState, t: ActionTable)
    requires AllOk(closedList, start, goal, t) && NodeOk(node, start, goal, t)
    ensures var c := Backtrack(closedList, node, fuel);
      forall i | 0 <= i < |c| :: NodeOk(c[i], start, goal, t)
  {
    var c := Backtrack(closedList, node, fuel);
    BacktrackLinks(closedList, node, fuel);
    AllOkMeans(closedList, start, goal, t);
    forall i | 0 <= i < |c|
      ensures NodeOk(c[i], start, goal, t)
    {
      if i < |c| - 1 {
        assert Linked(closedList, c[i], c[i + 1]);
        assert c[i] in closedList;
      }
    }
  }

  /**
   * The entries of a backtracked chain form a run of the planner's
   * actions, and a chain that reaches a parentless node starts at
   * ("root", start).
   */
  lemma ChainIsRun(closedList: seq<AStarNode>, node: AStarNode, fuel: nat,
                   start: WorldState, goal: WorldState, t: ActionTable)
    requires AllOk(closedList, start, goal, t) && NodeOk(node, start, goal, t)
    ensures IsRun(t, Entries(Backtrack(closedList, node, fuel)))
    ensures var c := Backtrack(closedList, node, fuel);
      |c| > 0 && c[0].parentws.None? ==> Entries(c)[0] == ("root", start)
  {
    var c := Backtrack(closedList, node, fuel);
    var e := Entries(c);
    BacktrackLinks(closedList, node, fuel);
    ChainNodesOk(closedList, node, fuel, start, goal, t);
    forall i | 0 <= i < |e| - 1
      ensures IsStep(t, e[i].1, e[i + 1].0, e[i + 1].1)
    {
      LinkedStep(closedList, c[i], c[i + 1], start, goal, t);
    }
    if |c| > 0 {
      assert NodeOk(c[0], start, goal, t);
    }
  }

  /** The plan `reconstruct_plan` returns: the chain's entries, costed at the goal node's `f`. */
  function Reconstruction(closedList: seq<AStarNode>, goalNode: AStarNode, fuel: nat): (p: AStarPlan)
    ensures fuel > 0 ==> |p.entries| > 0 && p.entries[|p.entries| - 1] == (goalNode.actionName, goalNode.ws)
    ensures p.cost == goalNode.f
  {
    AStarPlan(Entries(Backtrack(closedList, goalNode, fuel)), goalNode.f)
  }

  /**
   * A plan rebuilt from a node that passes the goal test costs the node's
   * `g`: its `h` is zero there.
   */
  lemma PlanCostIsG(closedList: seq<AStarNode>, goalNode: AStarNode, fuel: nat,
                    start: WorldState, goal: WorldState, t: ActionTable)
    requires NodeOk(goalNode, start, goal, t) && AgreesOn(goalNode.ws.values, goal)
    ensures Reconstruction(closedList, goalNode, fuel).cost == goalNode.g
  {
    CaredDiffsZero(goalNode.ws, goal, MaxValues);
  }

  /**
   * What `plan` returns on success: `gn` is a well-built node that passes
   * the goal test and had the least `f` in open when it was taken; the plan
   * is the walk back from it through closed, and that walk ended where the
   * source's loop ends.
   */
  ghost predicate Found(p: AStarPlan, gn: AStarNode, openList: seq<AStarNode>, closedList: seq<AStarNode>,
                        start: WorldState, goal: WorldState, t: ActionTable)
  {
    && NodeOk(gn, start, goal, t)
    && AgreesOn(gn.ws.values, goal)
    && (forall n | n in openList :: gn.f <= n.f)
    && p == Reconstruction(closedList, gn, |closedList| + 1)
    && Stops(closedList, Backtrack(closedList, gn, |closedList| + 1)[0])
  }

  /**
   * A found plan is a run of the planner's actions that ends in a state
   * meeting the goal, costs the goal node's `g`, and starts at
   * ("root", start) unless its first node's parent had left closed.
   */
  lemma FoundPlan(p: AStarPlan, gn: AStarNode, openList: seq<AStarNode>, closedList: seq<AStarNode>,
                  start: WorldState, goal: WorldState, t: ActionTable)
    requires AllOk(closedList, start, goal, t)
    requires Found(p, gn, openList, closedList, start, goal, t)
    ensures IsRun(t, p.entries)
    ensures |p.entries| > 0 && AgreesOn(p.entries[|p.entries| - 1].1.values, goal)
    ensures p.cost == gn.g
    ensures var c := Backtrack(closedList, gn, |closedList| + 1);
      c[0].parentws.None? ==> p.entries[0] == ("root", start)
  {
    ChainIsRun(closedList, gn, |closedList| + 1, start, goal, t);
    PlanCostIsG(closedList, gn, |closedList| + 1, start, goal, t);
  }

  /** Every node in both lists is well built. */
  ghost predicate Sound(openList: seq<AStarNode>, closedList: seq<AStarNode>,
                        start: WorldState, goal: WorldState, t: ActionTable)
  {
    AllOk(openList, start, goal, t) && AllOk(closedList, start, goal, t)
  }

  /** What holds of both lists at every round of `plan`. */
  ghost predicate Searching(openList: seq<AStarNode>, closedList: seq<AStarNode>,
                            start: WorldState, goal: WorldState, t: ActionTable)
  {
    Sound(openList, closedList, start, goal, t) && |openList| < MaxOpen && |closedList| < MaxClosed
  }

  /** How one round of `plan`'s main loop ends: `plan` returns, or the loop goes on with these lists. */
  datatype RoundEnd =
    | Returns(plan: Option<AStarPlan>, stuck: bool, openList: seq<AStarNode>, closedList: seq<AStarNode>)
    | Continues(openList: seq<AStarNode>, closedList: seq<AStarNode>)

  /**
   * The end of a round of `plan`'s main loop once `cur` has been popped,
   * leaving `openList`: the walk back from `cur` when it passes the goal
   * test (stuck when that walk never stops); else `cur` is closed, the
   * search gives up when closed is full, and every transition out of `cur`
   * is relaxed, giving up when open fills.
   */
  function Settle(cur: AStarNode, openList: seq<AStarNode>, closedList: seq<AStarNode>,
                  t: ActionTable, goal: WorldState): (r: RoundEnd)
    requires t.Aligned() && |openList| < MaxOpen
    ensures r.Continues? ==> |r.openList| < MaxOpen
    ensures r.Returns? && r.plan.Some? ==> r.openList == openList && r.closedList == closedList
    ensures r.Returns? && r.stuck ==> r.plan.None?
  {
    if MatchesOnCare(cur.ws.values, goal) then
      var chain := Backtrack(closedList, cur, |closedList| + 1);
      if |chain| > 0 && Stops(closedList, chain[0]) then
        Returns(Some(Reconstruction(closedList, cur, |closedList| + 1)), false, openList, closedList)
      else Returns(None, true, openList, closedList)
    else
      var closed := closedList + [cur];
      if |closed| == MaxClosed then Returns(None, false, openList, closed)
      else
        var e := ExpandOver(openList, closed, cur, Transitions(t, cur.ws, 0), goal);
        if e.2 then Returns(None, false, e.0, e.1) else Continues(e.0, e.1)
  }

  /**
   * One round of `plan`'s main loop: with open empty it returns nothing;
   * otherwise it pops the open node of least `f` (see `Popped`) and
   * settles it.
   */
  function RoundOf(openList: seq<AStarNode>, closedList: seq<AStarNode>, t: ActionTable, goal: WorldState): (r: RoundEnd)
    requires t.Aligned() && |openList| < MaxOpen
    ensures r.Continues? ==> |r.openList| < MaxOpen
    ensures r.Returns? && r.plan.Some? ==> 0 < |r.openList| < MaxOpen && r.closedList == closedList
    ensures r.Returns? && r.stuck ==> r.plan.None?
  {
    if |openList| == 0 then Returns(None, false, openList, closedList)
    else
      var i := MinFIndex(openList);
      Settle(openList[i], if |openList| > 1 then SwapRemove(openList, i) else openList, closedList, t, goal)
  }

  /**
   * The main loop of `plan` from the given lists, for at most `fuel` more
   * rounds: the plan found (if any), whether the source would still be
   * running, and the final lists.
   */
  function SearchFrom(openList: seq<AStarNode>, closedList: seq<AStarNode>, t: ActionTable,
                      goal: WorldState, fuel: nat): (r: (Option<AStarPlan>, bool, seq<AStarNode>, seq<AStarNode>))
    requires t.Aligned() && |openList| < MaxOpen
    ensures r.1 ==> r.0.None?
    ensures r.0.Some? ==> 0 < |r.2| < MaxOpen
    decreases fuel
  {
    if fuel == 0 then (None, true, openList, closedList)
    else match RoundOf(openList, closedList, t, goal)
      case Returns(p, stuck, o, c) => (p, stuck, o, c)
      case Continues(o, c) => SearchFrom(o, c, t, goal, fuel - 1)
  }

  /** A round that goes on leaves the rest of the search to the lists it ends with. */
  lemma SearchFromContinues(openList: seq<AStarNode>, closedList: seq<AStarNode>, t: ActionTable, goal: WorldState,
                            fuel: nat, openList': seq<AStarNode>, closedList': seq<AStarNode>)
    requires t.Aligned() && |openList| < MaxOpen && |openList'| < MaxOpen && fuel > 0
    requires RoundOf(openList, closedList, t, goal) == Continues(openList', closedList')
    ensures SearchFrom(openList, closedList, t, goal, fuel) == SearchFrom(openList', closedList', t, goal, fuel - 1)
  {
  }

  /**
   * What holds when `plan` returns `(r, stuck)` with these lists: a plan
   * comes with room left in both lists and is the walk back from a found
   * goal node (see `Found`), a run of the actions that ends at the goal;
   * giving up without being stuck means open ran empty or a list filled.
   */
  ghost predicate Outcome(r: Option<AStarPlan>, stuck: bool, openList: seq<AStarNode>, closedList: seq<AStarNode>,
                          start: WorldState, goal: WorldState, t: ActionTable)
  {
    && (stuck ==> r.None?)
    && |openList| <= MaxOpen && |closedList| <= MaxClosed
    && Sound(openList, closedList, start, goal, t)
    && (r.None? && !stuck ==> |openList| == 0 || |closedList| == MaxClosed || |openList| == MaxOpen)
    && (r.Some? ==> 0 < |openList| < MaxOpen && |closedList| < MaxClosed)
    && (r.Some? ==> exists gn :: Found(r.value, gn, openList, closedList, start, goal, t))
    && (r.Some? ==> IsRun(t, r.value.entries))
    && (r.Some? ==> |r.value.entries| > 0 && AgreesOn(r.value.entries[|r.value.entries| - 1].1.values, goal))
  }

  /** A found plan, with room left in both lists, is a successful outcome of `plan`. */
  lemma FoundOutcome(p: AStarPlan, gn: AStarNode, openList: seq<AStarNode>, closedList: seq<AStarNode>,
                     start: WorldState, goal: WorldState, t: ActionTable)
    requires Sound(openList, closedList, start, goal, t)
    requires 0 < |openList| < MaxOpen && |closedList| < MaxClosed
    requires Found(p, gn, openList, closedList, start, goal, t)
    ensures Outcome(Some(p), false, openList, closedList, start, goal, t)
  {
    FoundPlan(p, gn, openList, closedList, start, goal, t);
  }

  // ---------------------------------------------------------------------
  // The search engine

  /** `AStar`: the open and closed lists of one `plan` call. */
  class AStar {
    var openList: seq<AStarNode>
    var closedList: seq<AStarNode>

    /** `AStar::new()` */
    constructor ()
      ensures openList == [] && closedList == []
    {
      openList := [];
      closedList := [];
    }

    /** `clear()` */
    method Clear()
      modifies this
      ensures openList == [] && closedList == []
    {
      openList := [];
      closedList := [];
    }

    /** `idx_in_opened`: the first open node with the same values. */
    function IdxInOpened(ws: WorldState): (r: Option<nat>)
      reads this
      ensures r.Some? ==> r.value < |openList| && openList[r.value].ws.values == ws.values
      ensures r.Some? ==> forall j | 0 <= j < r.value :: openList[j].ws.values != ws.values
      ensures r.None? ==> forall n | n in openList :: n.ws.values != ws.values
    {
      FirstWithValues(openList, ws.values)
    }

    /** `idx_in_closed`: the first closed node with the same values. */
    function IdxInClosed(ws: WorldState): (r: Option<nat>)
      reads this
      ensures r.Some? ==> r.value < |closedList| && closedList[r.value].ws.values == ws.values
      ensures r.Some? ==> forall j | 0 <= j < r.value :: closedList[j].ws.values != ws.values
      ensures r.None? ==> forall n | n in closedList :: n.ws.values != ws.values
    {
      FirstWithValues(closedList, ws.values)
    }

    /** `entry_in_closed`: the first closed node with the same values. */
    function EntryInClosed(ws: WorldState): (r: Option<AStarNode>)
      reads this
      ensures r.Some? <==> exists n | n in closedList :: n.ws.values == ws.values
      ensures r.Some? ==> exists i | 0 <= i < |closedList| ::
                && r.value == closedList[i] && closedList[i].ws.values == ws.values
                && forall j | 0 <= j < i :: closedList[j].ws.values != ws.values
    {
      match FirstWithValues(closedList, ws.values)
      case Some(i) => Some(closedList[i])
      case None => None
    }

    /**
     * `reconstruct_plan`: walks back from the goal node, pushing each node's
     * entry to the front, for at most `fuel` nodes; `complete` tells whether
     * the walk ended as the source's loop does, at a node without a parent
     * or whose parent's values are not in closed.
     */
    method ReconstructPlan(goalNode: AStarNode, fuel: nat) returns (plan: AStarPlan, complete: bool)
      ensures plan == Reconstruction(closedList, goalNode, fuel)
      ensures var c := Backtrack(closedList, goalNode, fuel);
        complete <==> |c| > 0 && Stops(closedList, c[0])
    {
      var entries: seq<(string, WorldState)> := [];
      var current: Option<AStarNode> := Some(goalNode);
      ghost var suffix: seq<AStarNode> := [];
      var steps: nat := 0;
      WalkStarts(closedList, goalNode, fuel);
      while current.Some? && steps < fuel
        invariant Walked(closedList, goalNode, fuel, current, steps, suffix)
        invariant entries == Entries(suffix)
        decreases fuel - steps
      {
        var node := current.value;
        WalkAdvances(closedList, goalNode, fuel, node, steps, suffix);
        EntriesPushFront(node, suffix);
        entries := [(node.actionName, node.ws)] + entries;
        suffix := [node] + suffix;
        match node.parentws {
          case Some(p) =>
            current := EntryInClosed(p);
          case None =>
            current := None;
        }
        assert current == Predecessor(closedList, node);
        steps := steps + 1;
      }
      WalkEnds(closedList, goalNode, fuel, current, steps, suffix);
      plan := AStarPlan(entries, goalNode.f);
      complete := current.None?;
    }

    /**
     * The `idx_in_opened` match of the transition loop: a dearer open node
     * with the same values is dropped; `kept` tells whether one at least as
     * cheap is there.
     */
    method DropDearerOpen(ws: WorldState, cost: int) returns (kept: bool)
      modifies this
      ensures (openList, kept) == Supersede(old(openList), ws, cost)
      ensures closedList == old(closedList)
    {
      kept := false;
      match IdxInOpened(ws) {
        case Some(idx) =>
          if cost < openList[idx].g {
            if |openList| > 1 {
              openList := SwapRemove(openList, idx);
            } else {
              openList := [];
            }
          } else {
            kept := true;
          }
        case None =>
      }
    }

    /** The `idx_in_closed` match of the transition loop, on closed. */
    method DropDearerClosed(ws: WorldState, cost: int) returns (kept: bool)
      modifies this
      ensures (closedList, kept) == Supersede(old(closedList), ws, cost)
      ensures openList == old(openList)
    {
      kept := false;
      match IdxInClosed(ws) {
        case Some(idx) =>
          if cost < closedList[idx].g {
            if |closedList| > 1 {
              closedList := SwapRemove(closedList, idx);
            } else {
              closedList := [];
            }
          } else {
            kept := true;
          }
        case None =>
      }
    }

    /** The transition loop body for one transition out of `cur`: see `Expand`. */
    method Relax(cur: AStarNode, tr: Transition, goal: WorldState)
      modifies this
      ensures (openList, closedList) == Expand(old(openList), old(closedList), cur, tr, goal)
    {
      var cost := cur.g + tr.cost;
      ExpandBySupersede(openList, closedList, cur, tr, goal);
      var keptOpen := DropDearerOpen(tr.to, cost);
      var keptClosed := DropDearerClosed(tr.to, cost);
      if !keptOpen && !keptClosed {
        openList := openList + [Successor(cur, tr, goal)];
      }
    }

    /** `Relax` on lists whose nodes are all well built keeps them so. */
    method RelaxSound(cur: AStarNode, tr: Transition, goal: WorldState,
                      ghost start: WorldState, ghost t: ActionTable, ghost k: nat)
      requires Sound(openList, closedList, start, goal, t) && Fires(t, k, cur.ws, tr)
      modifies this
      ensures (openList, closedList) == Expand(old(openList), old(closedList), cur, tr, goal)
      ensures Sound(openList, closedList, start, goal, t)
      ensures |openList| <= old(|openList|) + 1 && |closedList| <= old(|closedList|)
    {
      ExpandKeepsNodesOk(openList, closedList, cur, tr, start, goal, t, k);
      Relax(cur, tr, goal);
    }

    /**
     * Takes the node of least `f` (the first among ties) out of a non-empty
     * open list; a one-node list is left as it is, as the source copies its
     * only node instead of removing it.
     */
    method PopLowest() returns (cur: AStarNode)
      requires |openList| > 0
      modifies this
      ensures Popped(old(openList), cur, openList)
      ensures cur in old(openList)
      ensures forall n | n in old(openList) :: cur.f <= n.f
      ensures forall n | n in openList :: n in old(openList)
      ensures |openList| == if |old(openList)| > 1 then |old(openList)| - 1 else 1
      ensures closedList == old(closedList)
    {
      var lowest := MinFIndex(openList);
      cur := openList[lowest];
      if |openList| > 1 {
        openList := SwapRemove(openList, lowest);
      }
    }

    /**
     * The transition loop of `plan`: relaxes every transition out of `cur`
     * in table order; `overflow` reports that open reached `MAX_OPEN`.
     */
    method ExpandAll(cur: AStarNode, t: ActionTable, start: WorldState, goal: WorldState)
      returns (overflow: bool)
      requires t.Aligned()
      requires Sound(openList, closedList, start, goal, t) && |openList| < MaxOpen
      modifies this
      ensures (openList, closedList, overflow) ==
        ExpandOver(old(openList), old(closedList), cur, Transitions(t, cur.ws, 0), goal)
      ensures Sound(openList, closedList, start, goal, t)
      ensures |closedList| <= old(|closedList|)
      ensures overflow <==> |openList| == MaxOpen
      ensures |openList| <= MaxOpen
    {
      ghost var target := ExpandOver(openList, closedList, cur, Transitions(t, cur.ws, 0), goal);
      ExpandAllKeepsNodesOk(openList, closedList, cur, t, start, goal);
      var k := 0;
      while k < |t.names|
        invariant k <= |t.names| && |openList| < MaxOpen
        invariant ExpandOver(openList, closedList, cur, Transitions(t, cur.ws, k), goal) == target
        decreases |t.names| - k
      {
        var tr;
        var k0 := k;
        tr, k := Next(cur.ws, t, k);
        if tr.None? {
          TransitionsSkip(t, cur.ws, k0, k);
          break;
        }
        TransitionsNext(t, cur.ws, k0, k, tr.value);
        ExpandOverCons(openList, closedList, cur, tr.value, Transitions(t, cur.ws, k), goal);
        Relax(cur, tr.value, goal);
        if |openList| == MaxOpen {
          return true;
        }
      }
      return false;
    }

    /**
     * The goal branch of `plan`'s main loop, once `cur` has been popped and
     * passes the goal test: the plan rebuilt from `cur`, or `stuck` when the
     * walk back would never stop.
     */
    method ReturnFound(cur: AStarNode, t: ActionTable, start: WorldState, goal: WorldState)
      returns (r: Option<AStarPlan>, stuck: bool)
      requires Sound(openList, closedList, start, goal, t) && NodeOk(cur, start, goal, t)
      requires 0 < |openList| < MaxOpen && |closedList| < MaxClosed
      requires MatchesOnCare(cur.ws.values, goal) && forall n | n in openList :: cur.f <= n.f
      ensures var chain := Backtrack(closedList, cur, |closedList| + 1);
        (r, stuck) == if |chain| > 0 && Stops(closedList, chain[0]) then
          (Some(Reconstruction(closedList, cur, |closedList| + 1)), false)
        else (None, true)
      ensures Outcome(r, stuck, openList, closedList, start, goal, t)
    {
      var plan, complete := ReconstructPlan(cur, |closedList| + 1);
      if !complete {
        return None, true;
      }
      assert Found(plan, cur, openList, closedList, start, goal, t);
      FoundOutcome(plan, cur, openList, closedList, start, goal, t);
      return Some(plan), false;
    }

    /**
     * The rest of a round of `plan`'s main loop once the popped `cur` has
     * failed the goal test: `cur` is closed, the search gives up (`done`)
     * when closed is full, and otherwise every transition out of `cur` is
     * relaxed, giving up when open fills.
     */
    method CloseAndExpand(cur: AStarNode, t: ActionTable, start: WorldState, goal: WorldState)
      returns (done: bool)
      requires t.Aligned() && Sound(openList, closedList, start, goal, t) && NodeOk(cur, start, goal, t)
      requires |openList| < MaxOpen && |closedList| < MaxClosed
      modifies this
      ensures var closed := old(closedList) + [cur];
        (openList, closedList, done) ==
          if |closed| == MaxClosed then (old(openList), closed, true)
          else ExpandOver(old(openList), closed, cur, Transitions(t, cur.ws, 0), goal)
      ensures done ==> Outcome(None, false, openList, closedList, start, goal, t)
      ensures !done ==> Searching(openList, closedList, start, goal, t)
    {
      AllOkPush(closedList, cur, start, goal, t);
      closedList := closedList + [cur];
      if |closedList| == MaxClosed {
        return true;
      }
      done := ExpandAll(cur, t, start, goal);
    }

    /**
     * The rest of a round of `plan`'s main loop once `cur` has been popped:
     * see `Settle`.
     */
    method SettleCur(cur: AStarNode, t: ActionTable, start: WorldState, goal: WorldState)
      returns (done: bool, r: Option<AStarPlan>, stuck: bool)
      requires t.Aligned() && Searching(openList, closedList, start, goal, t) && NodeOk(cur, start, goal, t)
      requires forall n | n in openList :: cur.f <= n.f
      requires |openList| > 0
      modifies this
      ensures Settle(cur, old(openList), old(closedList), t, goal) ==
        if done then Returns(r, stuck, openList, closedList) else Continues(openList, closedList)
      ensures done ==> Outcome(r, stuck, openList, closedList, start, goal, t)
      ensures !done ==> Searching(openList, closedList, start, goal, t)
    {
      if MatchesOnCare(cur.ws.values, goal) {
        r, stuck := ReturnFound(cur, t, start, goal);
        return true, r, stuck;
      }
      done := CloseAndExpand(cur, t, start, goal);
      return done, None, false;
    }

    /**
     * One round of `plan`'s main loop on lists that hold `Searching`:
     * `done` tells whether `plan` returns `(r, stuck)` in this round.
     */
    method Round(t: ActionTable, start: WorldState, goal: WorldState)
      returns (done: bool, r: Option<AStarPlan>, stuck: bool)
      requires t.Aligned() && Searching(openList, closedList, start, goal, t)
      modifies this
      ensures RoundOf(old(openList), old(closedList), t, goal) ==
        if done then Returns(r, stuck, openList, closedList) else Continues(openList, closedList)
      ensures done ==> Outcome(r, stuck, openList, closedList, start, goal, t)
      ensures !done ==> Searching(openList, closedList, start, goal, t)
    {
      if |openList| == 0 {
        return true, None, false;
      }
      ghost var before := openList;
      var cur := PopLowest();
      AllOkAt(before, cur, start, goal, t);
      AllOkSubset(openList, before, start, goal, t);
      done, r, stuck := SettleCur(cur, t, start, goal);
    }

    /**
     * The main loop of `plan`, for at most `fuel` rounds, from lists that
     * hold `Searching`.
     */
    method Search(t: ActionTable, start: WorldState, goal: WorldState, fuel: nat)
      returns (r: Option<AStarPlan>, stuck: bool)
      requires t.Aligned() && Searching(openList, closedList, start, goal, t)
      modifies this
      ensures (r, stuck, openList, closedList) == SearchFrom(old(openList), old(closedList), t, goal, fuel)
      ensures Outcome(r, stuck, openList, closedList, start, goal, t)
    {
      var left := fuel;
      ghost var result := SearchFrom(openList, closedList, t, goal, fuel);
      while left > 0
        invariant Searching(openList, closedList, start, goal, t)
        invariant SearchFrom(openList, closedList, t, goal, left) == result
      {
        ghost var before, closedBefore := openList, closedList;
        var done;
        done, r, stuck := Round(t, start, goal);
        if done {
          return;
        }
        SearchFromContinues(before, closedBefore, t, goal, left, openList, closedList);
        left := left - 1;
      }
      return None, true;
    }

    /**
     * `plan(ap, start, goal)`. At most `fuel` rounds of the main loop are
     * run; `stuck` reports that the source would still be running, either
     * in the main loop or in `reconstruct_plan` on a walk that never stops.
     */
    method Plan(ap: ActionPlanner, start: WorldState, goal: WorldState, fuel: nat)
      returns (r: Option<AStarPlan>, stuck: bool)
      requires ap.Valid()
      modifies this
      ensures (r, stuck, openList, closedList) ==
        SearchFrom([AStarNode(start, None, 0, CalcHeuristic(start, goal), CalcHeuristic(start, goal), "root")],
                   [], ap.Actions(), goal, fuel)
      ensures stuck ==> r.None?
      ensures |openList| <= MaxOpen && |closedList| <= MaxClosed
      ensures r.Some? ==> 0 < |openList| < MaxOpen && |closedList| < MaxClosed
      ensures AllOk(openList, start, goal, ap.Actions()) && AllOk(closedList, start, goal, ap.Actions())
      ensures r.None? && !stuck ==> |openList| == 0 || |closedList| == MaxClosed || |openList| == MaxOpen
      ensures r.Some? ==> exists gn :: Found(r.value, gn, openList, closedList, start, goal, ap.Actions())
      ensures r.Some? ==> IsRun(ap.Actions(), r.value.entries)
      ensures r.Some? ==> |r.value.entries| > 0 && AgreesOn(r.value.entries[|r.value.entries| - 1].1.values, goal)
    {
      var t := ap.Actions();
      Clear();
      var h := CalcHeuristic(start, goal);
      var root := AStarNode(start, None, 0, h, 0 + h, "root");
      openList := openList + [root];
      assert openList == [root];
      r, stuck := Search(t, start, goal, fuel);
    }
  }
}
