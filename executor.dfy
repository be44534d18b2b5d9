/**
 * `PlanExecutor.execute` of rgoap/src/rgoap/planning.py: walks a plan from its start node back to
 * the goal node. At each node it checks that the node's action is valid in the node's worldstate
 * and that its freeform context holds, then runs it, which writes the outcome into the worldstate
 * of the next node on the path. It stops with failure at the first action that fails a check.
 */
module Execution {
  import opened WorldStates
  import opened Actions
  import opened Nodes

  /**
   * The outcome of a walk: whether the goal node was reached, the worldstates of the nodes from
   * the goal node up to (not including) the start node afterwards, and how many actions ran.
   */
  datatype Walked = Walked(ok: bool, states: seq<WorldState>, ran: nat)

  /**
   * The walk from a node whose worldstate is `ws`, whose action path is `acts` and whose path
   * nodes hold `states`: the last action is checked against `ws`; if it may run, its outcome
   * replaces the last path state and the walk continues from there.
   */
  function Walk(acts: seq<Action>, states: seq<WorldState>, ws: WorldState,
                valid: ValidityCheck, context: ContextCheck, run: Runner): (r: Walked)
    requires |acts| == |states|
    ensures |r.states| == |states| && r.ran <= |acts|
    ensures r.ok <==> r.ran == |acts|
  {
    if acts == [] then Walked(true, states, 0)
    else
      var k := |acts| - 1;
      var a := acts[k];
      if valid(a, ws) && context(a) then
        var next := run(a, states[k]);
        var w := Walk(acts[..k], states[..k], next, valid, context, run);
        Walked(w.ok, w.states + [next], w.ran + 1)
      else Walked(false, states, 0)
  }

  /** The nodes the walk did not reach keep their worldstates. */
  lemma {:induction false} WalkKeeps(acts: seq<Action>, states: seq<WorldState>, ws: WorldState,
                                     valid: ValidityCheck, context: ContextCheck, run: Runner)
    requires |acts| == |states|
    ensures var w := Walk(acts, states, ws, valid, context, run);
            var m := |states| - w.ran;
            w.states[..m] == states[..m]
  {
    if acts != [] {
      var k := |acts| - 1;
      var a := acts[k];
      if valid(a, ws) && context(a) {
        var next := run(a, states[k]);
        WalkKeeps(acts[..k], states[..k], next, valid, context, run);
        var w := Walk(acts[..k], states[..k], next, valid, context, run);
        var m := k - w.ran;
        assert states[..k][..m] == states[..m];
        assert (w.states + [next])[..m] == w.states[..m];
      }
    }
  }

  /** Each node the walk reached holds what the action leading to it produced from its earlier worldstate. */
  lemma {:induction false} WalkRuns(acts: seq<Action>, states: seq<WorldState>, ws: WorldState,
                                    valid: ValidityCheck, context: ContextCheck, run: Runner)
    requires |acts| == |states|
    ensures var w := Walk(acts, states, ws, valid, context, run);
            forall i | |states| - w.ran <= i < |states| :: w.states[i] == run(acts[i], states[i])
  {
    if acts != [] {
      var k := |acts| - 1;
      var a := acts[k];
      if valid(a, ws) && context(a) {
        var next := run(a, states[k]);
        WalkRuns(acts[..k], states[..k], next, valid, context, run);
        var w := Walk(acts[..k], states[..k], next, valid, context, run);
        forall i | k - w.ran <= i < k
          ensures (w.states + [next])[i] == run(acts[i], states[i])
        {
          assert acts[..k][i] == acts[i] && states[..k][i] == states[i];
        }
      }
    }
  }

  /**
   * Every action that ran was valid in the worldstate of its node at that moment and its freeform
   * context held. `(w.states + [ws])[i + 1]` is the worldstate of the node whose action is `acts[i]`.
   */
  lemma {:induction false} WalkChecks(acts: seq<Action>, states: seq<WorldState>, ws: WorldState,
                                      valid: ValidityCheck, context: ContextCheck, run: Runner)
    requires |acts| == |states|
    ensures var w := Walk(acts, states, ws, valid, context, run);
            forall i | |acts| - w.ran <= i < |acts| :: valid(acts[i], (w.states + [ws])[i + 1]) && context(acts[i])
  {
    if acts != [] {
      var k := |acts| - 1;
      var a := acts[k];
      if valid(a, ws) && context(a) {
        var next := run(a, states[k]);
        WalkChecks(acts[..k], states[..k], next, valid, context, run);
        var w := Walk(acts[..k], states[..k], next, valid, context, run);
        var inner := w.states + [next];
        forall i | k - w.ran <= i < k
          ensures valid(acts[i], (inner + [ws])[i + 1]) && context(acts[i])
        {
          assert acts[..k][i] == acts[i];
          assert (inner + [ws])[i + 1] == inner[i + 1];
        }
      }
    }
  }

  /**
   * A walk that stops short of the goal node stops at an action that was not valid in the
   * worldstate of its node or whose freeform context did not hold.
   */
  lemma {:induction false} WalkStops(acts: seq<Action>, states: seq<WorldState>, ws: WorldState,
                                     valid: ValidityCheck, context: ContextCheck, run: Runner)
    requires |acts| == |states|
    ensures var w := Walk(acts, states, ws, valid, context, run);
            var m := |acts| - w.ran;
            !w.ok ==> 0 < m && !(valid(acts[m - 1], (w.states + [ws])[m]) && context(acts[m - 1]))
  {
    if acts != [] {
      var k := |acts| - 1;
      var a := acts[k];
      if valid(a, ws) && context(a) {
        var next := run(a, states[k]);
        WalkStops(acts[..k], states[..k], next, valid, context, run);
        var w := Walk(acts[..k], states[..k], next, valid, context, run);
        var m := k - w.ran;
        if !w.ok {
          assert acts[..k][m - 1] == acts[m - 1];
          assert (w.states + [next] + [ws])[m] == (w.states + [next])[m];
        }
      }
    }
  }

  /** A walk whose last action may run runs it and continues from the next node. */
  lemma WalkStep(acts: seq<Action>, states: seq<WorldState>, ws: WorldState,
                 valid: ValidityCheck, context: ContextCheck, run: Runner)
    requires |acts| == |states| && acts != []
    requires valid(acts[|acts| - 1], ws) && context(acts[|acts| - 1])
    ensures var k := |acts| - 1;
            var next := run(acts[k], states[k]);
            var rest := Walk(acts[..k], states[..k], next, valid, context, run);
            Walk(acts, states, ws, valid, context, run) == Walked(rest.ok, rest.states + [next], rest.ran + 1)
  {
  }

  /** The worldstates of a list of nodes are, position by position, the given ones. */
  ghost predicate HoldStates(ns: seq<Node>, states: seq<WorldState>)
    reads ns`worldstate
  {
    |ns| == |states| && forall i | 0 <= i < |ns| :: ns[i].worldstate == states[i]
  }

  /** Appending a node to a list appends its worldstate to the states the list holds. */
  lemma HoldMore(ns: seq<Node>, n: Node, states: seq<WorldState>)
    requires HoldStates(ns, states)
    ensures HoldStates(ns + [n], states + [n.worldstate])
  {
  }

  /**
   * `execute(start_node)`: true when the walk reached the goal node. The worldstates of the path
   * nodes, `states` on entry, are updated in place as the walk describes; the start node's own
   * worldstate is only read.
   */
  method Execute(node: Node, valid: ValidityCheck, context: ContextCheck, run: Runner, ghost states: seq<WorldState>)
    returns (ok: bool)
    requires node.WellFormed() && HoldStates(node.parentNodes, states)
    modifies node.parentNodes`worldstate
    ensures var w := Walk(node.parentActions, states, node.worldstate, valid, context, run);
            ok == w.ok && HoldStates(node.parentNodes, w.states)
    decreases |node.parentNodes|
  {
    if node.IsGoal() {
      return true;
    }
    ParentStep(node);
    var a := node.action.value;
    var next := node.ParentNode();
    if valid(a, node.worldstate) && context(a) {
      ghost var k := |states| - 1;
      ghost var ws := node.worldstate;
      ghost var outcome := run(a, states[k]);
      WalkStep(node.parentActions, states, ws, valid, context, run);
      assert node.parentActions[..k] == next.parentActions;
      assert next.worldstate == states[k];
      next.worldstate := run(a, next.worldstate);
      ok := Execute(next, valid, context, run, states[..k]);
      assert next.worldstate == outcome && node.worldstate == ws;
      HoldMore(next.parentNodes, next, Walk(next.parentActions, states[..k], outcome, valid, context, run).states);
      return;
    }
    return false;
  }
}
