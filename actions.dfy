/**
 * The planner's view of rgoap's Action and Goal. Both live in rgoap's `common` module, which is
 * not part of this model. What the planner needs of them is a cost, the regression of a worldstate
 * through the preconditions (`apply_preconditions`), and four hooks whose implementation it cannot
 * see (`check_freeform_context`, `has_satisfying_effects`, `is_valid`, `run`); those four are
 * passed to the planner and the executor as function values, so nothing is assumed about them.
 */
module Actions {
  import opened WorldStates

  /**
   * An action of the catalog. Two actions are the same action exactly when all their fields agree
   * (Python compares them by identity; the model assumes that distinct catalog entries differ in
   * some field, such as their names).
   */
  datatype Action = Action(name: string, cost: nat, preconditions: WorldState, effects: WorldState)

  /** A goal: the conditions it wants to hold. */
  datatype Goal = Goal(conditions: WorldState)

  /** `check_freeform_context()`: an external gate outside the condition system. */
  type ContextCheck = Action -> bool

  /** `has_satisfying_effects(node_worldstate, start_worldstate, unsatisfied_conditions)`. */
  type EffectCheck = (Action, WorldState, WorldState, set<Cond>) -> bool

  /** `is_valid(worldstate)`: the action's preconditions hold in the worldstate. */
  type ValidityCheck = (Action, WorldState) -> bool

  /** `run(next_worldstate)`: performs the action and records its real outcome in the worldstate. */
  type Runner = (Action, WorldState) -> WorldState

  /**
   * `action.apply_preconditions(worldstate, start_worldstate)`: regress a worldstate through the
   * action. What the action's effects establish is not known before it runs, so every effect
   * condition falls back to its start value (when the start records one); then every precondition
   * value is written. Running the action forward from the result is meant to restore the effects;
   * forward execution is not part of this model.
   */
  function ApplyPreconditions(a: Action, ws: WorldState, start: WorldState): (r: WorldState)
    ensures Matches(r, a.preconditions)
    ensures r.Keys == ws.Keys + a.preconditions.Keys + (a.effects.Keys * start.Keys)
    ensures forall c :: c in a.effects && c !in a.preconditions && c in start ==> r[c] == start[c]
    ensures forall c :: c in ws && c !in a.preconditions && (c !in a.effects || c !in start) ==> r[c] == ws[c]
  {
    var reset := map c | c in ws.Keys + (a.effects.Keys * start.Keys) ::
      if c in a.effects && c in start then start[c] else ws[c];
    reset + a.preconditions
  }

  /** `goal.apply_preconditions(WorldState())`: the goal worldstate, built on an empty worldstate. */
  function GoalWorldState(g: Goal): (r: WorldState)
    ensures Matches(r, g.conditions) && r.Keys == g.conditions.Keys
  {
    map[] + g.conditions
  }

  /** The sum of the costs of a list of actions. */
  function ActionCosts(acts: seq<Action>): nat
  {
    if acts == [] then 0 else ActionCosts(acts[..|acts| - 1]) + acts[|acts| - 1].cost
  }
}
