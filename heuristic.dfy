/**
 * The heuristic distance of `Node._calc_heuristic_distance_for_node`, as functions on worldstates.
 * Python's float arithmetic is modelled with exact reals.
 */
module Heuristic {
  import opened Wrappers
  import opened WorldStates

  /** The exceptions the heuristic lets escape: neither is caught anywhere in the planner. */
  datatype Fault =
    | KeyError(key: Cond)     // the start worldstate has no value for a goal condition
    | ZeroDivisionError       // the goal value of a numeric condition equals its start value

  function Abs(x: real): real { if x < 0.0 then -x else x }

  /**
   * The distance one unsatisfied condition contributes to a non-goal node's heuristic.
   * A condition the goal does not mention counts 1 (the KeyError of the goal lookup is caught);
   * if the goal, start or node value is not a number the subtraction raises TypeError, which is
   * caught, and the condition counts 1; otherwise it counts |node - start| / |goal - start|.
   */
  function ConditionDistance(c: Cond, node: WorldState, start: WorldState, goal: WorldState): (r: Result<real, Fault>)
    requires c in Unsatisfied(node, start)
    ensures r.Ok? ==> r.value > 0.0
    ensures r.Err? <==>
      (c in goal && (c !in start || (goal[c].Num? && start[c].Num? && node[c].Num? && goal[c].n == start[c].n)))
    ensures c !in goal ==> r == Ok(1.0)
    ensures c in goal && c in start && node[c] == goal[c] ==> r == Ok(1.0)
    ensures c in goal && c !in start ==> r == Err(KeyError(c))
    ensures r.Err? && c in start ==> r == Err(ZeroDivisionError)
  {
    if c !in goal then Ok(1.0)
    else if c !in start then Err(KeyError(c))
    else match (goal[c], start[c], node[c])
      case (Num(g), Num(s), Num(n)) =>
        if g == s then Err(ZeroDivisionError)
        else
          DivisionPositive(Abs(n - s), Abs(g - s));
          assert n == g ==> Abs(n - s) / Abs(g - s) == 1.0;
          Ok(Abs(n - s) / Abs(g - s))
      case _ => Ok(1.0)
  }

  lemma DivisionPositive(x: real, y: real)
    requires x > 0.0 && y > 0.0
    ensures x / y > 0.0
  {
  }

  /** The value a condition contributes when it does not raise (0 otherwise, never used then). */
  function Contribution(c: Cond, node: WorldState, start: WorldState, goal: WorldState): real
  {
    if c in Unsatisfied(node, start) then
      match ConditionDistance(c, node, start, goal)
      case Ok(d) => d
      case Err(_) => 0.0
    else 0.0
  }

  /** True when the condition raises one of the uncaught exceptions. */
  predicate Raises(c: Cond, node: WorldState, start: WorldState, goal: WorldState)
  {
    c in Unsatisfied(node, start) && ConditionDistance(c, node, start, goal).Err?
  }

  /** `f` is the exception some unsatisfied condition of the node raises. */
  ghost predicate RaisesFault(node: WorldState, start: WorldState, goal: WorldState, f: Fault)
  {
    exists c :: Raises(c, node, start, goal) && ConditionDistance(c, node, start, goal) == Err(f)
  }

  ghost function Pick(cs: set<Cond>): Cond
    requires cs != {}
  {
    var c :| c in cs; c
  }

  /** The sum of the contributions of a set of conditions, in no particular order. */
  ghost function SumContributions(cs: set<Cond>, node: WorldState, start: WorldState, goal: WorldState): real
    decreases cs
  {
    if cs == {} then 0.0
    else
      var c := Pick(cs);
      Contribution(c, node, start, goal) + SumContributions(cs - {c}, node, start, goal)
  }

  /** Any condition can be summed first: the sum does not depend on the order of iteration. */
  lemma {:induction false} SumRemove(cs: set<Cond>, x: Cond, node: WorldState, start: WorldState, goal: WorldState)
    requires x in cs
    ensures SumContributions(cs, node, start, goal)
         == Contribution(x, node, start, goal) + SumContributions(cs - {x}, node, start, goal)
    decreases cs
  {
    var c := Pick(cs);
    if c != x {
      SumRemove(cs - {c}, x, node, start, goal);
      SumRemove(cs - {x}, c, node, start, goal);
      assert cs - {c} - {x} == cs - {x} - {c};
    }
  }

  /** Adding one more condition to a summed set adds its contribution. */
  lemma SumAdd(cs: set<Cond>, x: Cond, node: WorldState, start: WorldState, goal: WorldState)
    requires x !in cs
    ensures SumContributions(cs + {x}, node, start, goal)
         == SumContributions(cs, node, start, goal) + Contribution(x, node, start, goal)
  {
    SumRemove(cs + {x}, x, node, start, goal);
    assert cs + {x} - {x} == cs;
  }

  /**
   * The heuristic distance of a node whose worldstate is `node`, against the start worldstate.
   * `goal` is None for the goal node itself and otherwise the goal node's worldstate.
   * The goal node counts every unsatisfied condition once. Any other node sums the contributions
   * of its unsatisfied conditions and caps the sum at their number; None when a condition raises.
   */
  ghost function Distance(node: WorldState, start: WorldState, goal: Option<WorldState>): Option<real>
  {
    var u := Unsatisfied(node, start);
    if goal.None? then Some(|u| as real)
    else if exists c :: c in u && Raises(c, node, start, goal.value) then None
    else
      var sum := SumContributions(u, node, start, goal.value);
      Some(if (|u| as real) < sum then |u| as real else sum)
  }

  /** One raising condition is enough for the distance of a non-goal node to be undefined. */
  lemma RaisingDistance(c: Cond, node: WorldState, start: WorldState, goal: WorldState)
    requires Raises(c, node, start, goal)
    ensures Distance(node, start, Some(goal)).None?
  {
  }

  /**
   * The loop of `_calc_heuristic_distance_for_node` over the unsatisfied conditions of a non-goal
   * node, in the set's iteration order: adds up their distances, or stops at the first condition
   * that raises and lets its exception escape.
   */
  method SumConditionDistances(node: WorldState, start: WorldState, goal: WorldState) returns (r: Result<real, Fault>)
    ensures r.Ok? <==> forall c :: c in Unsatisfied(node, start) ==> !Raises(c, node, start, goal)
    ensures r.Ok? ==> r.value == SumContributions(Unsatisfied(node, start), node, start, goal)
    ensures r.Err? ==> Distance(node, start, Some(goal)).None?
    ensures r.Err? ==> exists c :: Raises(c, node, start, goal) && ConditionDistance(c, node, start, goal) == Err(r.error)
  {
    var u := Unsatisfied(node, start);
    var sum := 0.0;
    var todo := u;
    while todo != {}
      invariant todo <= u
      invariant forall c :: c in u - todo ==> !Raises(c, node, start, goal)
      invariant sum == SumContributions(u - todo, node, start, goal)
      decreases todo
    {
      var c :| c in todo;
      var d := ConditionDistance(c, node, start, goal);
      if d.Err? {
        assert Raises(c, node, start, goal);
        RaisingDistance(c, node, start, goal);
        return Err(d.error);
      }
      SumAdd(u - todo, c, node, start, goal);
      assert (u - todo) + {c} == u - (todo - {c});
      sum := sum + d.value;
      todo := todo - {c};
    }
    assert u - todo == u;
    r := Ok(sum);
  }

  /** When no unsatisfied condition raises, the distance of a non-goal node is its capped sum. */
  lemma SummedDistance(node: WorldState, start: WorldState, goal: WorldState, sum: real)
    requires forall c :: c in Unsatisfied(node, start) ==> !Raises(c, node, start, goal)
    requires sum == SumContributions(Unsatisfied(node, start), node, start, goal)
    ensures var n := |Unsatisfied(node, start)| as real;
            Distance(node, start, Some(goal)) == Some(if n < sum then n else sum)
  {
  }

  /** Contributions of unsatisfied conditions that do not raise are positive, so their sum is too. */
  lemma {:induction false} SumPositive(cs: set<Cond>, node: WorldState, start: WorldState, goal: WorldState)
    requires cs <= Unsatisfied(node, start)
    requires forall c :: c in cs ==> !Raises(c, node, start, goal)
    ensures cs == {} ==> SumContributions(cs, node, start, goal) == 0.0
    ensures cs != {} ==> SumContributions(cs, node, start, goal) > 0.0
    decreases cs
  {
    if cs != {} {
      var c := Pick(cs);
      SumPositive(cs - {c}, node, start, goal);
    }
  }

  /** When every condition contributes exactly 1, the sum is the number of conditions. */
  lemma {:induction false} SumOfUnitContributions(cs: set<Cond>, node: WorldState, start: WorldState, goal: WorldState)
    requires forall c :: c in cs ==> Contribution(c, node, start, goal) == 1.0
    ensures SumContributions(cs, node, start, goal) == |cs| as real
    decreases cs
  {
    if cs != {} {
      var c := Pick(cs);
      SumOfUnitContributions(cs - {c}, node, start, goal);
    }
  }

  /**
   * The heuristic never exceeds the number of unsatisfied conditions, is never negative, and is
   * zero exactly when the start worldstate already matches the node.
   */
  lemma DistanceBounds(node: WorldState, start: WorldState, goal: Option<WorldState>)
    requires Distance(node, start, goal).Some?
    ensures 0.0 <= Distance(node, start, goal).value <= |Unsatisfied(node, start)| as real
    ensures Distance(node, start, goal).value == 0.0 <==> Matches(start, node)
  {
    MatchesIffNothingUnsatisfied(start, node);
    var u := Unsatisfied(node, start);
    if goal.Some? {
      SumPositive(u, node, start, goal.value);
    }
  }

  /**
   * A non-goal node none of whose unsatisfied conditions is a numeric goal condition (each is
   * absent from the goal or not a number) has a heuristic equal to the number of those conditions.
   */
  lemma NonNumericDistance(node: WorldState, start: WorldState, goal: WorldState)
    requires forall c :: c in Unsatisfied(node, start) ==>
      c !in goal || (c in start && !(goal[c].Num? && start[c].Num? && node[c].Num?))
    ensures Distance(node, start, Some(goal)) == Some(|Unsatisfied(node, start)| as real)
  {
    var u := Unsatisfied(node, start);
    assert forall c :: c in u ==> !Raises(c, node, start, goal);
    SumOfUnitContributions(u, node, start, goal);
  }
}
