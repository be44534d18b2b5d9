/**
 * The planner's view of rgoap's WorldState: a finite mapping from conditions to values.
 * The class itself lives in rgoap's `common` module, which is not part of this model; only the
 * operations the planner calls (`matches`, `get_unsatisfied_conditions`, `get_condition_value`)
 * are given here, with the meaning the planner relies on.
 */
module WorldStates {

  /** A condition is identified by its state name. */
  type Cond = string

  /**
   * A condition value. Python booleans are numbers (True - False == 1, True == 1), so a boolean
   * condition holds Num(1.0) or Num(0.0); everything the arithmetic of the heuristic rejects with a
   * TypeError (strings, None, other objects) is a Sym.
   */
  datatype Value = Num(n: real) | Sym(s: string)

  type WorldState = map<Cond, Value>

  /** `ws.matches(other)`: ws agrees with every condition that `other` records. */
  predicate Matches(ws: WorldState, other: WorldState)
  {
    forall c :: c in other ==> c in ws && ws[c] == other[c]
  }

  /**
   * `ws.get_unsatisfied_conditions(reference)`: the conditions recorded in ws whose value the
   * reference worldstate does not share (a different value, or none at all).
   */
  function Unsatisfied(ws: WorldState, reference: WorldState): set<Cond>
  {
    set c | c in ws && (c !in reference || reference[c] != ws[c])
  }

  /** The start worldstate matches a node's worldstate exactly when nothing of the node is unsatisfied. */
  lemma MatchesIffNothingUnsatisfied(start: WorldState, ws: WorldState)
    ensures Matches(start, ws) <==> Unsatisfied(ws, start) == {}
  {
    if !Matches(start, ws) {
      var c :| c in ws && !(c in start && start[c] == ws[c]);
      assert c in Unsatisfied(ws, start);
    }
  }
}
