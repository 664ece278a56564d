# gpgoap-rs in Dafny

A model of the planning engine of gpgoap-rs, a Goal-Oriented Action Planner.
Boolean world facts ("atoms") are registered by name. Actions are registered
by name, each with a precondition, an effect and an integer cost. A* search
then looks for a sequence of actions that turns a start state into one that
meets a goal.

The model follows the three core files:

- `bitset.dfy` (module `BitSet`) models `BitSetU64`, a 64-flag word. The
  64 bits are kept as a sequence, least significant first. The type is
  `Copy`, so the `&mut self` operations are functions from the old value to
  the new one.
- `goap.dfy` (module `Goap`) models `WorldState` (value bits plus don't-care
  bits) and `ActionPlanner`. The registry is stated twice. `Registry` and the
  functions over it say what each operation does to the tables. The class
  `ActionPlanner` does it in place on 64-slot arrays, and each of its methods
  is proved to agree with the matching function on the registered prefix.
- `astar.dfy` (module `AStar`) models the search: the care-mask test, the
  heuristic, effect application, the transition iterator, and the class
  `AStar` with its open and closed lists.
  - Every node in either list is proved to be well built: its `h` is the
    heuristic, `f == g + h`, and it is either the root or the result of a
    registered action whose precondition its parent's state meets.
  - `plan` is proved to compute `SearchFrom`, a function that states the
    main loop round by round: pop, goal test, close, relax every transition.
  - A plan that is returned is proved to be a run of the planner's actions
    on the value bits: each step's precondition holds and its effect gives
    the next entry's values. The don't-care bits of the entries are not
    constrained. The run ends in a state meeting the goal and costs the
    goal node's `g`.
- `heuristic.dfy` (module `Heuristic`) states what the heuristic does and does
  not promise over runs of actions.
- `walkback.dfy` (module `WalkBack`) proves that the plan-reconstruction walk
  either stops within `|closed| + 1` nodes or never stops.

Behaviour of the code worth knowing:

- The plan starts with the root entry `("root", start)`. The action entries
  follow it.
- The plan's cost is the goal node's `f`. `AStar.PlanCostIsG` shows this
  equals its `g`, because `h` is zero at a node that meets the goal.
- With one node in open, `plan` copies that node instead of removing it, so
  it stays in open while it is also pushed to closed.
- Nodes are found in either list by their `values` alone.
  - A node stores its parent's state, and reconstruction looks that state up
    in closed again.
  - When a closed node was superseded, the walk can stop at a node whose
    parent is no longer in closed, so the plan then starts there and not at
    the root. `AStar.FoundPlan` states when the root entry is first.
- The heuristic is not admissible for every choice of costs of at least 1.
  `Heuristic.UnitCostsOverestimate` shows one action of cost 1 that pins
  two goal atoms, from a state the heuristic puts 2 away from the goal.
  - `Heuristic.HeuristicAdmissible` proves the weaker condition that
    suffices: each action costs at least as much as the number of atoms its
    effect pins.

## Model

| member | source | states |
|---|---|---|
| BitSet.Mask | src/bitset.rs:30 | `1 << idx` has bit `idx` set and no other |
| BitSet.GetIsMaskTest | src/bitset.rs:49-53 | `get(idx)`, the test `bits & (1 << idx) != 0`, holds exactly when flag `idx` is set |
| BitSet.Empty | src/bitset.rs:11-13 | no flag is set |
| BitSet.Full | src/bitset.rs:15-17 | every flag is set |
| BitSet.And | src/bitset.rs:67-73 | each flag of the result is the conjunction of the operands' flags |
| BitSet.AndAssign | src/bitset.rs:75-79 | `&=` leaves the receiver equal to `self & rhs` |
| BitSet.Or | src/bitset.rs:81-87 | each flag of the result is the disjunction of the operands' flags |
| BitSet.OrAssign | src/bitset.rs:89-93 | or-assignment leaves the receiver equal to the disjunction of the two sets |
| BitSet.Xor | src/bitset.rs:95-101 | each flag of the result is set exactly where the operands differ |
| BitSet.XorAssign | src/bitset.rs:103-107 | `^=` leaves the receiver equal to `self ^ rhs` |
| BitSet.Not | src/bitset.rs:109-115 | each flag of the result is the negation of the operand's |
| BitSet.Set | src/bitset.rs:28-35 | flag `idx` takes `value`; every other flag is unchanged |
| BitSet.Enable | src/bitset.rs:37-41 | flag `idx` is set; every other flag is unchanged |
| BitSet.Disable | src/bitset.rs:43-47 | flag `idx` is cleared; every other flag is unchanged |
| BitSet.CountOnes | src/bitset.rs:55-58 | the population count is at most 64 |
| BitSet.Extensionality | src/bitset.rs:4-7 | two sets that agree on every flag are equal, as the derived equality on the word says |
| BitSet.SetIsEnableOrDisable | src/bitset.rs:28-47 | `set(i, true)` is `enable(i)` and `set(i, false)` is `disable(i)` |
| BitSet.EnableThenDisable | src/bitset.rs:37-47 | enabling flag `i` of `empty()` gives the one-bit mask, and disabling it again gives `empty()` |
| BitSet.XorFullIsNot | src/bitset.rs:95-115 | `x ^ full()` equals `!x`, the care-mask idiom the planner uses |
| BitSet.CountOnesOfConstants | src/bitset.rs:55-58 | `empty()` counts 0 ones and `full()` counts 64 |
| Goap.NewWorldState | src/goap.rs:19-28 | `new()`, also what `clear()` assigns: every atom don't-care with a false value bit |
| Goap.SetIdx | src/goap.rs:38-42 | atom `idx` is pinned to `value` and becomes known; every other atom keeps its value and don't-care bit |
| Goap.SetIdxIdempotent | src/goap.rs:38-42 | setting the same atom to the same value twice is setting it once |
| Goap.SetIdxOverwrites | src/goap.rs:38-42 | a second `set_idx` on an atom overrides the first |
| Goap.SetIdxKeepsCanonical | src/goap.rs:38-42 | states built from `new` and `set_idx` keep a false value bit on every don't-care atom |
| Goap.SetByName | src/goap.rs:31-36 | `set` registers or resolves the atom through the planner; on success the state is `set_idx` of it, on a full atom table it is unchanged and the result is false |
| Goap.EmptyRegistry | src/goap.rs:89-99 | a new planner has no atoms and no actions, and its tables are well formed |
| Goap.Position | src/goap.rs:106-107 | `position`: the first index holding the name, or none exactly when the name is absent |
| Goap.PositionIsFirst | src/goap.rs:106-107 | a name's first occurrence is the index `position` returns |
| Goap.Find | src/goap.rs:106-107 | the search loop over the registered prefix of a name array returns what `position` returns |
| Goap.Register | src/goap.rs:105-118 | a known name keeps its index and the table; a new name is appended at the next index while there is room; a new name with a full table fails and changes nothing |
| Goap.RegisterKeepsTable | src/goap.rs:105-118 | registration keeps names distinct, within capacity, and never moves a registered name |
| Goap.RegisterFindsFirst | src/goap.rs:105-118 | a registered name resolves to its index without changing the table |
| Goap.RegisterIdempotent | src/goap.rs:105-118 | asking again for a name just registered returns the same index and changes nothing |
| Goap.RegisterAtom | src/goap.rs:105-118 | `idx_for_atom_name` on the tables: registers in the atom table only, below 64 slots, keeping the registry well formed |
| Goap.RegisterAction | src/goap.rs:120-134 | `idx_for_action_name` on the tables: a new action gets cost 1 and a fully don't-care precondition and effect; a known one leaves the table as it is |
| Goap.Narrow | src/goap.rs:136-148 | `set_pre`/`set_post` on the tables keep them well formed and succeed exactly when the action is registered or has room and the atom is registered or has room |
| Goap.NarrowSpec | src/goap.rs:136-148 | `set_pre`/`set_post` resolve both names, registering each even when the other fails; they succeed exactly when both resolve, and then change only that action's chosen state at that atom |
| Goap.AssignCost | src/goap.rs:150-157 | `set_cost` succeeds exactly when the action is registered or there is room for it, and afterwards the action has that cost |
| Goap.AssignCostSpec | src/goap.rs:150-157 | `set_cost` changes only that action's cost, and on failure nothing |
| Goap.ActionPlanner.constructor | src/goap.rs:89-99 | `new()`: valid, with an empty registry and fresh tables |
| Goap.ActionPlanner.Clear | src/goap.rs:101-103 | `clear()`: back to an empty registry with every slot reset |
| Goap.ActionPlanner.IdxForAtomName | src/goap.rs:105-118 | result and new tables are those of `RegisterAtom` on the old tables |
| Goap.ActionPlanner.IdxForActionName | src/goap.rs:120-134 | result and new tables are those of `RegisterAction` on the old tables |
| Goap.ActionPlanner.NarrowPre | src/goap.rs:138 | `act_pre[actidx].set_idx(atmidx, value)`: only that precondition changes, at that atom |
| Goap.ActionPlanner.NarrowPost | src/goap.rs:145 | `act_post[actidx].set_idx(atmidx, value)`: only that effect changes, at that atom |
| Goap.ActionPlanner.SetPre | src/goap.rs:136-141 | result and new tables are those of `Narrow` on the precondition part |
| Goap.ActionPlanner.SetPost | src/goap.rs:143-148 | result and new tables are those of `Narrow` on the effect part |
| Goap.ActionPlanner.SetCost | src/goap.rs:150-157 | result and new tables are those of `AssignCost` |
| Goap.ActionPlanner.ActPre | src/goap.rs:159-161 | the preconditions of the registered actions, one per action |
| Goap.ActionPlanner.Name | src/goap.rs:163-165 | the name of registered action `i` |
| Goap.ActionPlanner.Cost | src/goap.rs:167-169 | the cost of registered action `i` |
| Goap.ActionPlanner.Post | src/goap.rs:171-173 | the effect of registered action `i` |
| Goap.ActionPlanner.Actions | src/goap.rs:175-181 | the four slices, aligned, one entry per registered action |
| AStar.Care | src/astar.rs:65 | the care mask holds exactly the atoms the reference state pins |
| AStar.MaskedEqualIff | src/astar.rs:228-229 | the masked word comparison holds exactly when the tested values agree with the reference on every pinned atom |
| AStar.MatchesOnCare | src/astar.rs:228-229 | the precondition and goal test holds exactly when the tested values agree with the reference on every pinned atom; the tested state's own don't-care bits play no part |
| AStar.TruePreconditionNeedsKnownAtom | src/astar.rs:228-229 | for a state built by `new` and `set_idx`, requiring an atom to be true is met only where it is known and true |
| AStar.CaredDiffsZero | src/astar.rs:64-69 | the count of differing pinned atoms is zero exactly when they all agree |
| AStar.CountMatchesCaredDiffs | src/astar.rs:66-67 | the population count of the masked xor is the number of pinned atoms on which the states differ |
| AStar.CalcHeuristic | src/astar.rs:64-69 | the heuristic is the number of goal-pinned atoms where the values differ, between 0 and 64, and is 0 exactly when the goal test passes |
| AStar.ApplyEffect | src/astar.rs:231-235 | atoms the effect pins take its values and become known; all other atoms keep their value and don't-care bit |
| AStar.YieldsIsFunctional | src/astar.rs:231-235 | the per-atom description of an effect's result determines it uniquely |
| AStar.EmptyEffectIsIdentity | src/astar.rs:231-235 | an effect that pins nothing leaves the state unchanged |
| AStar.ApplyEffectKeepsCanonical | src/astar.rs:231-235 | a canonical effect on a canonical state gives a canonical state |
| AStar.SkipsMeans | src/astar.rs:227-238 | the actions skipped by the iterator are exactly those whose precondition fails |
| AStar.Next | src/astar.rs:226-240 | `next` returns the first action at or after the cursor whose precondition the state meets, with its name, cost and the effect's result, having skipped only failing actions; `None` only when every remaining action fails |
| AStar.SkipsExtend | src/astar.rs:227-238 | one more failing action extends a skipped range |
| AStar.Transitions | src/astar.rs:207-240 | `StateTransIter` yields at most one transition per remaining action |
| AStar.TransitionsMeans | src/astar.rs:226-240 | a transition is yielded exactly when some action at or past the cursor has a precondition the state meets and that name, cost and effect result |
| AStar.TransitionsSkip | src/astar.rs:227-238 | actions whose precondition fails add nothing to what the iterator yields |
| AStar.TransitionsFire | src/astar.rs:229-236 | an action whose precondition holds yields its transition before all later ones |
| AStar.TransitionsNext | src/astar.rs:226-240 | what one `next` call returns is the head of the yielded sequence, and the cursor it leaves yields the rest |
| AStar.FirstWithValues | src/astar.rs:52-62 | the first node with those values, or none exactly when no node has them |
| AStar.MinFIndex | src/astar.rs:134-137 | `min_by_key` on `f`: a node of least `f`, the first among ties |
| AStar.SwapRemove | src/astar.rs:140 | `swap_remove`: one element fewer, the same multiset less the removed one, and the last element moved into the gap |
| AStar.Supersede | src/astar.rs:157-180 | the first node with the same values is dropped exactly when it is dearer than the new cost; otherwise the list is unchanged and the flag says a node at least as cheap is kept |
| AStar.Successor | src/astar.rs:182-193 | the node pushed for a transition holds its target state, its name and `cur`'s state as parent; `g` is `cur.g` plus the cost, `f - g` is the heuristic, and `f == g` exactly when the state meets the goal |
| AStar.Expand | src/astar.rs:155-194 | one transition: the successor (parent `cur`, `g = cur.g + cost`) is pushed exactly when neither list keeps a node at least as cheap; no other node enters either list |
| AStar.ExpandKeepsNodesOk | src/astar.rs:155-194 | an expansion step by an action whose precondition holds keeps every node of both lists well built |
| AStar.ExpandOver | src/astar.rs:155-199 | the transition loop stops early exactly when open reaches 1024, never exceeds it, and never grows closed |
| AStar.ExpandOverCons | src/astar.rs:155-199 | the first transition is relaxed first, and the loop continues with the rest unless open is full |
| AStar.ExpandOverKeepsNodesOk | src/astar.rs:155-199 | relaxing a sequence of transitions that actions fire from `cur` keeps every node of both lists well built |
| AStar.ExpandAllKeepsNodesOk | src/astar.rs:155-199 | relaxing everything the iterator yields from `cur` keeps every node of both lists well built |
| AStar.Backtrack | src/astar.rs:81-91 | the walk ends at the node it started from and visits at most `fuel` nodes |
| AStar.Predecessor | src/astar.rs:84-90 | the next node is the first closed node with the parent's values, and none exactly when the walk stops |
| AStar.BacktrackLinks | src/astar.rs:81-91 | consecutive nodes of the walk are parent and child, and a walk shorter than its bound starts where the loop stops |
| AStar.ChainIsRun | src/astar.rs:76-93 | the entries of a walk through well-built nodes form a run of the planner's actions on the value bits (don't-care bits are not constrained), and a walk that reaches a parentless node starts at `("root", start)` |
| AStar.Reconstruction | src/astar.rs:76-93 | the plan ends with the goal node's entry and costs its `f` |
| AStar.PlanCostIsG | src/astar.rs:78 | at a node meeting the goal the plan's cost `f` equals `g` |
| AStar.FoundPlan | src/astar.rs:143-148 | a returned plan is a run of the actions on the value bits, ends in a state meeting the goal, costs the goal node's `g`, and starts at `("root", start)` when the walk reached the root |
| AStar.FoundOutcome | src/astar.rs:143-148 | a found plan, with room left in both lists, meets every promise `plan` makes about a returned plan |
| AStar.Settle | src/astar.rs:136-199 | the rest of a round after the pop: a stuck round has no plan; a returned plan leaves both lists as they were, and a round that goes on leaves open below 1024 |
| AStar.RoundOf | src/astar.rs:129-199 | one round of the main loop: only the goal branch is ever stuck, and then without a plan; a returned plan comes with a non-empty open list below 1024 and closed as it was; a round that goes on leaves open below 1024 |
| AStar.SearchFrom | src/astar.rs:128-200 | the main loop for at most `fuel` rounds: being stuck means no plan, and a plan comes with a non-empty open list below 1024 |
| AStar.SearchFromContinues | src/astar.rs:128-200 | a round that goes on leaves the rest of the search to the lists it ends with |
| AStar.AStar.constructor | src/astar.rs:45-50 | both lists start empty |
| AStar.AStar.Clear | src/astar.rs:71-74 | both lists are emptied |
| AStar.AStar.IdxInOpened | src/astar.rs:52-54 | the first open node with the same values, or none exactly when there is none |
| AStar.AStar.IdxInClosed | src/astar.rs:56-58 | the first closed node with the same values, or none exactly when there is none |
| AStar.AStar.EntryInClosed | src/astar.rs:60-62 | the first closed node with the same values, present exactly when one exists |
| AStar.AStar.ReconstructPlan | src/astar.rs:76-93 | the loop builds `Reconstruction`, and `complete` holds exactly when the walk stopped as the source's loop stops |
| AStar.AStar.DropDearerOpen | src/astar.rs:157-168 | the open-list match gives `Supersede` on open; closed is unchanged |
| AStar.AStar.DropDearerClosed | src/astar.rs:169-180 | the closed-list match gives `Supersede` on closed; open is unchanged |
| AStar.AStar.Relax | src/astar.rs:156-194 | one transition-loop iteration gives `Expand` of the old lists |
| AStar.AStar.RelaxSound | src/astar.rs:156-194 | that iteration gives `Expand` of the old lists, keeps every node well built, and grows open by at most one |
| AStar.AStar.PopLowest | src/astar.rs:134-141 | the selected node is the `min_by_key` choice; open becomes its `swap_remove`, or stays as it is when it has one node |
| AStar.AStar.ExpandAll | src/astar.rs:155-199 | the transition loop's lists and overflow flag are `ExpandOver` of the old lists over the transitions the iterator yields from `cur`; it keeps every node well built, never grows closed, and reports overflow exactly when open reaches 1024 |
| AStar.AStar.ReturnFound | src/astar.rs:143-148 | the goal branch returns the walk back from `cur` when that walk stops, else reports `stuck`; the lists are unchanged and the outcome is one `plan` promises |
| AStar.AStar.CloseAndExpand | src/astar.rs:149-199 | `cur` is pushed to closed; a full closed list ends the search, otherwise the lists become `ExpandOver` of the transitions out of `cur`; nodes stay well built |
| AStar.AStar.SettleCur | src/astar.rs:136-199 | the rest of the round is `Settle` of the old lists, and keeps both lists well built and below their limits when the loop goes on |
| AStar.AStar.Round | src/astar.rs:129-199 | one round is `RoundOf` of the old lists; a round that returns gives a promised outcome, one that goes on keeps the loop's invariant |
| AStar.AStar.Search | src/astar.rs:128-200 | at most `fuel` rounds of the main loop compute `SearchFrom` of the old lists, with a promised outcome |
| AStar.AStar.Plan | src/astar.rs:115-203 | the result and final lists are `SearchFrom` of the root node alone in open and an empty closed list; both lists stay well built and within 1024; with no plan, open is empty or a list reached 1024, unless the source would still be running; a plan comes with open non-empty and both lists below 1024, and is a run of the actions on the value bits ending in a state meeting the goal, rebuilt from a well-built goal node of least `f` |
| Heuristic.EffectClosesAtMostPinned | src/astar.rs:64-69 | one effect lowers the heuristic by at most the number of atoms it pins |
| Heuristic.HeuristicConsistent | src/astar.rs:64-69 | when each action costs at least the atoms its effect pins, the heuristic falls by at most a transition's cost |
| Heuristic.HeuristicAdmissible | src/astar.rs:64-69 | under the same condition the heuristic never exceeds the cost of a run that reaches the goal |
| Heuristic.UnitCostsOverestimate | src/astar.rs:64-69 | with every cost at least 1 the heuristic can still exceed the cost of the cheapest run: a goal one cost-1 action away is estimated at 2 |
| WalkBack.UnstoppedWalkNeverStops | src/astar.rs:81-91 | a reconstruction walk that has not stopped after one node more than closed holds never stops, so the source's loop would not return |

## Left out

- Console output: the `println!` calls in `plan` and `reconstruct_plan`, the `Debug` formatting of states and of the planner, and `debug_fmt`. They produce text only.
- `BitSetU64::new_with` and `max_values`: the datatype constructor over the 64 bits and the constant `MaxValues` stand for them. No conversion to a machine word is modelled.
- `Default` implementations: they are `new()`/`empty()`, which are modelled.
- `AStarPlan::new`, `iter` and `cost` are plain field access on the `AStarPlan` datatype.
- The `multizip` of the four action slices is modelled as indexing one `ActionTable`.
- Goap.ActionPlanner.Name, Goap.ActionPlanner.Cost, Goap.ActionPlanner.Post: require an index below the number of actions. The source panics (`unwrap`) on any other index, and a panic is not modelled.
- AStar.AStar.Plan: costs, `g`, `h` and `f` are unbounded integers. Overflow of the `i32` sum `cur.g + act_cost` is not modelled. Negative costs are accepted as the source accepts them.
- AStar.AStar.Plan: the source's main loop has no bound. The model runs at most `fuel` rounds, and `stuck` reports that the source would still be running. `stuck` also reports a reconstruction walk that has not stopped after `|closed| + 1` nodes, which `WalkBack.UnstoppedWalkNeverStops` shows never stops.
- AStar.AStar.Plan: does not state that the plan is the cheapest. The heuristic is not admissible for all cost settings (see `Heuristic.UnitCostsOverestimate`), and superseded closed nodes can cut the reconstruction walk short. So the source does not guarantee optimality, and the model states what it does guarantee instead.
- AStar.ChainIsRun, AStar.FoundPlan, AStar.AStar.Plan: a plan entry's state is the closed node found by values, so only its value bits are tied to the step before. Its don't-care bits come from that node and can differ from those the effect would give, so they are not constrained.
- AStar.AStar.ReconstructPlan: takes a bound on the number of nodes it visits, where the source loop has none. `Plan` passes `|closed| + 1`.
- String comparison of atom and action names is by value. The source compares `&'static str` by contents, so the two agree.
