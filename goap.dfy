/**
 * Model of src/goap.rs: world states over up to 64 atoms, and the
 * `ActionPlanner` registry that maps atom and action names to indices and
 * holds each action's precondition, effect and cost.
 *
 * The registry is specified twice: `Registry` and the functions over it
 * (`RegisterAtom`, `RegisterAction`, `Narrow`, `AssignCost`) say what each
 * operation does to the tables, and the class `ActionPlanner` performs it in
 * place on fixed 64-slot arrays, each method proved against its function.
 */
module Goap {
  import opened BitSet
  import opened Wrappers

  /** `MAX_ATOMS` */
  const MaxAtoms: nat := 64
  /** `MAX_ACTIONS` */
  const MaxActions: nat := 64

  /**
   * A partial assignment of the atoms: where `dontcare` is set the atom is
   * unconstrained, elsewhere `values` holds its truth value.
   */
  datatype WorldState = WorldState(values: BitSetU64, dontcare: BitSetU64)

  /** `WorldState::new()`, also what `clear()` assigns: every atom don't-care. */
  function NewWorldState(): (ws: WorldState)
    ensures forall i | 0 <= i < MaxAtoms :: !Get(ws.values, i) && Get(ws.dontcare, i)
  {
    WorldState(Empty(), Full())
  }

  /**
   * `set_idx(idx, value)`: pins atom `idx` to `value`. The state after the
   * call; the source's boolean result is always `true`.
   */
  function SetIdx(ws: WorldState, idx: nat, value: bool): (r: WorldState)
    requires idx < MaxAtoms
    ensures Get(r.values, idx) == value && !Get(r.dontcare, idx)
    ensures forall j | 0 <= j < MaxAtoms && j != idx ::
              Get(r.values, j) == Get(ws.values, j) && Get(r.dontcare, j) == Get(ws.dontcare, j)
  {
    WorldState(Set(ws.values, idx, value), Disable(ws.dontcare, idx))
  }

  /** Pinning an atom again to the same value changes nothing. */
  lemma SetIdxIdempotent(ws: WorldState, idx: nat, value: bool)
    requires idx < MaxAtoms
    ensures SetIdx(SetIdx(ws, idx, value), idx, value) == SetIdx(ws, idx, value)
  {
    var once := SetIdx(ws, idx, value);
    var twice := SetIdx(once, idx, value);
    Extensionality(twice.values, once.values);
    Extensionality(twice.dontcare, once.dontcare);
  }

  /** Pinning an atom to a new value overwrites the old one. */
  lemma SetIdxOverwrites(ws: WorldState, idx: nat, v: bool, w: bool)
    requires idx < MaxAtoms
    ensures SetIdx(SetIdx(ws, idx, v), idx, w) == SetIdx(ws, idx, w)
  {
    var lhs := SetIdx(SetIdx(ws, idx, v), idx, w);
    var rhs := SetIdx(ws, idx, w);
    Extensionality(lhs.values, rhs.values);
    Extensionality(lhs.dontcare, rhs.dontcare);
  }

  /**
   * A state whose don't-care atoms all carry a `false` value bit. Every
   * state built from `new` and `set_idx` is canonical.
   */
  predicate Canonical(ws: WorldState)
  {
    forall i | 0 <= i < MaxAtoms :: Get(ws.dontcare, i) ==> !Get(ws.values, i)
  }

  lemma SetIdxKeepsCanonical(ws: WorldState, idx: nat, value: bool)
    requires idx < MaxAtoms && Canonical(ws)
    ensures Canonical(SetIdx(ws, idx, value))
  {
  }

  // ---------------------------------------------------------------------
  // The registry tables, as values

  /** The four per-action slices that `actions()` returns, index by index. */
  datatype ActionTable = ActionTable(names: seq<string>, pres: seq<WorldState>,
                                     costs: seq<int>, posts: seq<WorldState>)
  {
    /** The four slices have one entry per registered action. */
    predicate Aligned()
    {
      |pres| == |names| && |costs| == |names| && |posts| == |names|
    }
  }

  /** The registered part of an `ActionPlanner`: atom names and the action table. */
  datatype Registry = Registry(atoms: seq<string>, actions: ActionTable)

  predicate Distinct(s: seq<string>)
  {
    forall i, j | 0 <= i < j < |s| :: s[i] != s[j]
  }

  /** What `ActionPlanner` maintains: both tables within 64 and free of duplicates. */
  predicate WellFormed(reg: Registry)
  {
    && |reg.atoms| <= MaxAtoms
    && |reg.actions.names| <= MaxActions
    && reg.actions.Aligned()
    && Distinct(reg.atoms)
    && Distinct(reg.actions.names)
  }

  /** `ActionPlanner::new()` */
  function EmptyRegistry(): (reg: Registry)
    ensures WellFormed(reg)
    ensures reg.atoms == [] && reg.actions.names == []
  {
    Registry([], ActionTable([], [], [], []))
  }

  /** `iter().position(|s| *s == name)`: the first index holding `name`. */
  function Position(names: seq<string>, name: string): (r: Option<nat>)
    ensures r.Some? ==> r.value < |names| && names[r.value] == name
    ensures r.Some? ==> forall j | 0 <= j < r.value :: names[j] != name
    ensures r.None? <==> name !in names
  {
    if names == [] then None
    else if names[0] == name then Some(0)
    else match Position(names[1..], name)
      case None => None
      case Some(i) => Some(i + 1)
  }

  /** The first occurrence is the only index `Position` can return. */
  lemma PositionIsFirst(names: seq<string>, name: string, k: nat)
    requires k < |names| && names[k] == name
    requires forall j | 0 <= j < k :: names[j] != name
    ensures Position(names, name) == Some(k)
  {
    assert names[k] in names;
  }

  /**
   * The rule both `idx_for_atom_name` and `idx_for_action_name` follow: a
   * known name keeps its index, an unknown one is appended while fewer than
   * `cap` names are held, and otherwise the lookup fails.
   */
  function Register(names: seq<string>, name: string, cap: nat): (r: (Option<nat>, seq<string>))
    ensures r.0.Some? ==> r.0.value < |r.1| && r.1[r.0.value] == name
    ensures r.0.None? <==> name !in names && |names| >= cap
    ensures name in names ==> r.1 == names
    ensures name !in names && |names| < cap ==> r == (Some(|names|), names + [name])
    ensures name !in names && |names| >= cap ==> r.1 == names
  {
    match Position(names, name)
    case Some(i) => (Some(i), names)
    case None => if |names| < cap then (Some(|names|), names + [name]) else (None, names)
  }

  /**
   * Registration keeps the table free of duplicates and within `cap`, and
   * never moves a name already registered.
   */
  lemma RegisterKeepsTable(names: seq<string>, name: string, cap: nat)
    requires Distinct(names) && |names| <= cap
    ensures var r := Register(names, name, cap);
      Distinct(r.1) && |r.1| <= cap && |names| <= |r.1| && r.1[..|names|] == names
  {
    var r := Register(names, name, cap);
    if name !in names && |names| < cap {
      assert r.1 == names + [name];
      forall i, j | 0 <= i < j < |r.1| ensures r.1[i] != r.1[j] {
        if j == |names| {
          assert r.1[i] == names[i] && names[i] in names;
        }
      }
    }
  }

  /** A name that is registered resolves to the first index that holds it. */
  lemma RegisterFindsFirst(names: seq<string>, name: string, cap: nat, k: nat)
    requires k < |names| && names[k] == name
    requires forall j | 0 <= j < k :: names[j] != name
    ensures Register(names, name, cap) == (Some(k), names)
  {
    PositionIsFirst(names, name, k);
  }

  /** Asking again for a name just registered returns the same index and changes nothing. */
  lemma RegisterIdempotent(names: seq<string>, name: string, cap: nat)
    requires Distinct(names) && |names| <= cap
    ensures var r := Register(names, name, cap);
      r.0.Some? ==> Register(r.1, name, cap) == r
  {
    var r := Register(names, name, cap);
    RegisterKeepsTable(names, name, cap);
    if r.0.Some? {
      var k := r.0.value;
      forall j | 0 <= j < k ensures r.1[j] != name {
        assert r.1[j] != r.1[k];
      }
      RegisterFindsFirst(r.1, name, cap, k);
    }
  }

  /** `idx_for_atom_name` on the tables. */
  function RegisterAtom(reg: Registry, name: string): (r: (Option<nat>, Registry))
    requires WellFormed(reg)
    ensures WellFormed(r.1) && r.1.actions == reg.actions
    ensures (r.0, r.1.atoms) == Register(reg.atoms, name, MaxAtoms)
    ensures r.0.Some? ==> r.0.value < MaxAtoms
  {
    RegisterKeepsTable(reg.atoms, name, MaxAtoms);
    var (idx, atoms) := Register(reg.atoms, name, MaxAtoms);
    (idx, reg.(atoms := atoms))
  }

  /**
   * `idx_for_action_name` on the tables: a newly registered action gets
   * cost 1 and the don't-care precondition and effect its slot already holds.
   */
  function RegisterAction(reg: Registry, name: string): (r: (Option<nat>, Registry))
    requires WellFormed(reg)
    ensures WellFormed(r.1) && r.1.atoms == reg.atoms
    ensures (r.0, r.1.actions.names) == Register(reg.actions.names, name, MaxActions)
    ensures r.0.Some? ==> r.0.value < |r.1.actions.names|
    ensures var t, t' := reg.actions, r.1.actions;
      if |t'.names| == |t.names| then t' == t
      else t'.pres == t.pres + [NewWorldState()] && t'.costs == t.costs + [1]
           && t'.posts == t.posts + [NewWorldState()]
  {
    RegisterKeepsTable(reg.actions.names, name, MaxActions);
    var t := reg.actions;
    var (idx, names) := Register(t.names, name, MaxActions);
    if |names| == |t.names| then (idx, reg)
    else (idx, reg.(actions := ActionTable(names, t.pres + [NewWorldState()], t.costs + [1],
                                           t.posts + [NewWorldState()])))
  }

  /** Which of an action's two states `set_pre` and `set_post` narrow. */
  datatype Part = Precondition | Effect

  /**
   * `set_pre` (part `Precondition`) and `set_post` (part `Effect`) on the tables: both
   * names are resolved, the action first, and only when both resolve is
   * the action's state narrowed at the atom.
   */
  function Narrow(reg: Registry, part: Part, act: string, atom: string, value: bool): (r: (bool, Registry))
    requires WellFormed(reg)
    ensures WellFormed(r.1)
    ensures r.0 <==> ((act in reg.actions.names || |reg.actions.names| < MaxActions)
                      && (atom in reg.atoms || |reg.atoms| < MaxAtoms))
  {
    var (ai, reg1) := RegisterAction(reg, act);
    var (ti, reg2) := RegisterAtom(reg1, atom);
    if ai.Some? && ti.Some? then
      var t := reg2.actions;
      var a := ai.value;
      var t' := match part
        case Precondition => t.(pres := t.pres[a := SetIdx(t.pres[a], ti.value, value)])
        case Effect => t.(posts := t.posts[a := SetIdx(t.posts[a], ti.value, value)]);
      (true, reg2.(actions := t'))
    else (false, reg2)
  }

  /**
   * `set_pre`/`set_post` succeed exactly when both names resolve. Both
   * registrations happen even when the other one fails. On success only the
   * chosen state of that action changes, and only at that atom.
   */
  lemma NarrowSpec(reg: Registry, part: Part, act: string, atom: string, value: bool)
    requires WellFormed(reg)
    ensures var (ok, reg') := Narrow(reg, part, act, atom, value);
      var (ai, withAct) := RegisterAction(reg, act);
      var (ti, withAtom) := RegisterAtom(reg, atom);
      var t := withAct.actions;
      && WellFormed(reg')
      && reg'.atoms == withAtom.atoms
      && reg'.actions.names == t.names && reg'.actions.costs == t.costs
      && (ok <==> ai.Some? && ti.Some?)
      && (!ok ==> reg'.actions == t)
      && (ok ==> forall k | 0 <= k < |t.names| ::
            && reg'.actions.pres[k] == (if k == ai.value && part == Precondition then SetIdx(t.pres[k], ti.value, value) else t.pres[k])
            && reg'.actions.posts[k] == (if k == ai.value && part == Effect then SetIdx(t.posts[k], ti.value, value) else t.posts[k]))
  {
    var (ai, withAct) := RegisterAction(reg, act);
    var (ti, reg2) := RegisterAtom(withAct, atom);
    assert (ti, reg2.atoms) == Register(reg.atoms, atom, MaxAtoms);
  }

  /** `set_cost` on the tables: registers the action if needed, then stores its cost. */
  function AssignCost(reg: Registry, act: string, cost: int): (r: (bool, Registry))
    requires WellFormed(reg)
    ensures WellFormed(r.1) && r.1.atoms == reg.atoms
    ensures r.0 <==> act in reg.actions.names || |reg.actions.names| < MaxActions
    ensures r.0 ==> exists a | 0 <= a < |r.1.actions.names| ::
              r.1.actions.names[a] == act && r.1.actions.costs[a] == cost
  {
    var (ai, reg1) := RegisterAction(reg, act);
    if ai.Some? then
      var t := reg1.actions;
      (true, reg1.(actions := t.(costs := t.costs[ai.value := cost])))
    else (false, reg1)
  }

  /** A cost stored by `set_cost` replaces only that action's cost. */
  lemma AssignCostSpec(reg: Registry, act: string, cost: int)
    requires WellFormed(reg)
    ensures var (ok, reg') := AssignCost(reg, act, cost);
      var (ai, withAct) := RegisterAction(reg, act);
      var t := withAct.actions;
      && reg'.actions.names == t.names && reg'.actions.pres == t.pres && reg'.actions.posts == t.posts
      && (ok ==> forall k | 0 <= k < |t.names| ::
            reg'.actions.costs[k] == (if k == ai.value then cost else t.costs[k]))
      && (!ok ==> reg' == reg)
  {
  }

  // ---------------------------------------------------------------------
  // The planner, in place

  /** `Iterator::position` over the first `n` slots of a name array. */
  method Find(a: array<string>, n: nat, name: string) returns (r: Option<nat>)
    requires n <= a.Length
    ensures r == Position(a[..n], name)
  {
    var i := 0;
    while i < n
      invariant i <= n
      invariant forall j | 0 <= j < i :: a[j] != name
    {
      if a[i] == name {
        PositionIsFirst(a[..n], name, i);
        return Some(i);
      }
      i := i + 1;
    }
    assert name !in a[..n];
    return None;
  }

  /**
   * `ActionPlanner`: two 64-slot name tables, each filled from the front,
   * and three 64-slot per-action arrays indexed like the action names.
   */
  class ActionPlanner {
    const atmNames: array<string>
    var numAtoms: nat
    const actNames: array<string>
    const actPre: array<WorldState>
    const actPost: array<WorldState>
    const actCosts: array<int>
    var numActions: nat

    /**
     * The tables have 64 slots; the registered prefixes hold distinct names;
     * every slot past them still holds what `new()` put there, in particular
     * a fully don't-care precondition and effect.
     */
    ghost predicate Valid()
      reads this, atmNames, actNames, actPre, actPost, actCosts
    {
      && atmNames.Length == MaxAtoms
      && actNames.Length == MaxActions && actPre.Length == MaxActions
      && actPost.Length == MaxActions && actCosts.Length == MaxActions
      && atmNames != actNames && actPre != actPost
      && numAtoms <= MaxAtoms && numActions <= MaxActions
      && Distinct(atmNames[..numAtoms]) && Distinct(actNames[..numActions])
      && (forall i | numAtoms <= i < MaxAtoms :: atmNames[i] == "")
      && (forall i | numActions <= i < MaxActions ::
            actNames[i] == "" && actPre[i] == NewWorldState() && actPost[i] == NewWorldState()
            && actCosts[i] == 0)
    }

    /** The registered atoms and actions. */
    ghost function Model(): (reg: Registry)
      reads this, atmNames, actNames, actPre, actPost, actCosts
      requires Valid()
      ensures WellFormed(reg)
      ensures |reg.atoms| == numAtoms && |reg.actions.names| == numActions
    {
      Registry(atmNames[..numAtoms],
               ActionTable(actNames[..numActions], actPre[..numActions],
                           actCosts[..numActions], actPost[..numActions]))
    }

    /** `ActionPlanner::new()` */
    constructor ()
      ensures Valid() && Model() == EmptyRegistry()
      ensures fresh(atmNames) && fresh(actNames) && fresh(actPre) && fresh(actPost) && fresh(actCosts)
    {
      atmNames := new string[MaxAtoms](_ => "");
      numAtoms := 0;
      actNames := new string[MaxActions](_ => "");
      actPre := new WorldState[MaxActions](_ => NewWorldState());
      actPost := new WorldState[MaxActions](_ => NewWorldState());
      actCosts := new int[MaxActions](_ => 0);
      numActions := 0;
    }

    /** `clear()`: back to what `new()` builds, every slot reset. */
    method Clear()
      requires Valid()
      modifies this, atmNames, actNames, actPre, actPost, actCosts
      ensures Valid() && Model() == EmptyRegistry()
    {
      forall i | 0 <= i < MaxAtoms {
        atmNames[i] := "";
      }
      forall i | 0 <= i < MaxActions {
        actNames[i] := "";
      }
      forall i | 0 <= i < MaxActions {
        actPre[i] := NewWorldState();
      }
      forall i | 0 <= i < MaxActions {
        actPost[i] := NewWorldState();
      }
      forall i | 0 <= i < MaxActions {
        actCosts[i] := 0;
      }
      numAtoms := 0;
      numActions := 0;
    }

    /** `idx_for_atom_name` */
    method IdxForAtomName(name: string) returns (r: Option<nat>)
      requires Valid()
      modifies this, atmNames
      ensures Valid()
      ensures (r, Model()) == RegisterAtom(old(Model()), name)
    {
      ghost var reg := Model();
      var found := Find(atmNames, numAtoms, name);
      match found {
        case Some(_) =>
          r := found;
        case None =>
          if numAtoms < MaxAtoms {
            r := Some(numAtoms);
            atmNames[numAtoms] := name;
            numAtoms := numAtoms + 1;
            assert atmNames[..numAtoms] == reg.atoms + [name];
          } else {
            r := None;
          }
      }
      RegisterKeepsTable(reg.atoms, name, MaxAtoms);
    }

    /** `idx_for_action_name`: a new action also gets cost 1. */
    method IdxForActionName(name: string) returns (r: Option<nat>)
      requires Valid()
      modifies this, actNames, actCosts
      ensures Valid()
      ensures (r, Model()) == RegisterAction(old(Model()), name)
    {
      ghost var reg := Model();
      var found := Find(actNames, numActions, name);
      match found {
        case Some(_) =>
          r := found;
        case None =>
          if numActions < MaxActions {
            var idx := numActions;
            r := Some(idx);
            actNames[idx] := name;
            actCosts[idx] := 1;
            numActions := numActions + 1;
            assert actNames[..numActions] == reg.actions.names + [name];
            assert actPre[..numActions] == reg.actions.pres + [NewWorldState()];
            assert actPost[..numActions] == reg.actions.posts + [NewWorldState()];
            assert actCosts[..numActions] == reg.actions.costs + [1];
          } else {
            r := None;
          }
      }
      RegisterKeepsTable(reg.actions.names, name, MaxActions);
    }

    /** Narrows action `a`'s precondition at atom `atom` (the success branch of `set_pre`). */
    method NarrowPre(a: nat, atom: nat, value: bool)
      requires Valid() && a < numActions && atom < MaxAtoms
      modifies actPre
      ensures Valid()
      ensures var reg := old(Model());
        Model() == reg.(actions := reg.actions.(pres := reg.actions.pres[a := SetIdx(reg.actions.pres[a], atom, value)]))
    {
      ghost var before := actPre[..numActions];
      actPre[a] := SetIdx(actPre[a], atom, value);
      assert actPre[..numActions] == before[a := SetIdx(before[a], atom, value)];
    }

    /** Narrows action `a`'s effect at atom `atom` (the success branch of `set_post`). */
    method NarrowPost(a: nat, atom: nat, value: bool)
      requires Valid() && a < numActions && atom < MaxAtoms
      modifies actPost
      ensures Valid()
      ensures var reg := old(Model());
        Model() == reg.(actions := reg.actions.(posts := reg.actions.posts[a := SetIdx(reg.actions.posts[a], atom, value)]))
    {
      ghost var before := actPost[..numActions];
      actPost[a] := SetIdx(actPost[a], atom, value);
      assert actPost[..numActions] == before[a := SetIdx(before[a], atom, value)];
    }

    /** `set_pre` */
    method SetPre(actionName: string, atomName: string, value: bool) returns (ok: bool)
      requires Valid()
      modifies this, atmNames, actNames, actCosts, actPre
      ensures Valid()
      ensures (ok, Model()) == Narrow(old(Model()), Precondition, actionName, atomName, value)
    {
      var ai := IdxForActionName(actionName);
      var ti := IdxForAtomName(atomName);
      if ai.Some? && ti.Some? {
        NarrowPre(ai.value, ti.value, value);
        ok := true;
      } else {
        ok := false;
      }
    }

    /** `set_post` */
    method SetPost(actionName: string, atomName: string, value: bool) returns (ok: bool)
      requires Valid()
      modifies this, atmNames, actNames, actCosts, actPost
      ensures Valid()
      ensures (ok, Model()) == Narrow(old(Model()), Effect, actionName, atomName, value)
    {
      var ai := IdxForActionName(actionName);
      var ti := IdxForAtomName(atomName);
      if ai.Some? && ti.Some? {
        NarrowPost(ai.value, ti.value, value);
        ok := true;
      } else {
        ok := false;
      }
    }

    /** `set_cost` */
    method SetCost(actionName: string, cost: int) returns (ok: bool)
      requires Valid()
      modifies this, actNames, actCosts
      ensures Valid()
      ensures (ok, Model()) == AssignCost(old(Model()), actionName, cost)
    {
      var ai := IdxForActionName(actionName);
      if ai.Some? {
        ghost var before := Model();
        actCosts[ai.value] := cost;
        assert actCosts[..numActions] == before.actions.costs[ai.value := cost];
        ok := true;
      } else {
        ok := false;
      }
    }

    /** `act_pre()`: the preconditions of the registered actions. */
    function ActPre(): (r: seq<WorldState>)
      reads this, atmNames, actNames, actPre, actPost, actCosts
      requires Valid()
      ensures |r| == numActions && r == Model().actions.pres
    {
      actPre[..numActions]
    }

    /** `name(i)`; the source panics unless `i < num_actions`. */
    function Name(i: nat): (r: string)
      reads this, atmNames, actNames, actPre, actPost, actCosts
      requires Valid() && i < numActions
      ensures r == Model().actions.names[i]
    {
      actNames[i]
    }

    /** `cost(i)`; the source panics unless `i < num_actions`. */
    function Cost(i: nat): (r: int)
      reads this, atmNames, actNames, actPre, actPost, actCosts
      requires Valid() && i < numActions
      ensures r == Model().actions.costs[i]
    {
      actCosts[i]
    }

    /** `post(i)`; the source panics unless `i < num_actions`. */
    function Post(i: nat): (r: WorldState)
      reads this, atmNames, actNames, actPre, actPost, actCosts
      requires Valid() && i < numActions
      ensures r == Model().actions.posts[i]
    {
      actPost[i]
    }

    /** `actions()`: names, preconditions, costs and effects, one entry per registered action. */
    function Actions(): (t: ActionTable)
      reads this, atmNames, actNames, actPre, actPost, actCosts
      requires Valid()
      ensures t.Aligned() && |t.names| == numActions && t == Model().actions
    {
      ActionTable(actNames[..numActions], actPre[..numActions],
                  actCosts[..numActions], actPost[..numActions])
    }
  }

  /**
   * `WorldState::set(ap, atom_name, value)`: resolves the atom through the
   * planner (registering it if new) and pins it; `false` and no change to the
   * state when the atom table is full.
   */
  method SetByName(ws: WorldState, ap: ActionPlanner, atomName: string, value: bool)
    returns (r: WorldState, ok: bool)
    requires ap.Valid()
    modifies ap, ap.atmNames
    ensures ap.Valid()
    ensures var (idx, reg) := RegisterAtom(old(ap.Model()), atomName);
      && ap.Model() == reg
      && ok == idx.Some?
      && r == (if ok then SetIdx(ws, idx.value, value) else ws)
  {
    var idx := ap.IdxForAtomName(atomName);
    match idx {
      case Some(i) =>
        r, ok := SetIdx(ws, i, value), true;
      case None =>
        r, ok := ws, false;
    }
  }
}
