/**
 * `Planner` of rgoap/src/rgoap/planning.py: a regressive best-first search from the goal back to
 * the start worldstate over an open list re-sorted by total cost after every expansion.
 */
module Planning {
  import opened Wrappers
  import opened WorldStates
  import opened Actions
  import opened Heuristic
  import opened Nodes
  import opened OpenList
  import StableSort

  /** The planner gives up after this many iterations of its loop. */
  const LoopLimit: nat := 500

  /** What `plan` ends with: a start node, None, or an exception raised by a heuristic. */
  datatype PlanResult = Found(node: Node) | NoPlan | Raised(fault: Fault)

  /**
   * One step of a regression: `a` is a checked action that the effect check judged helpful for
   * node `from`, and regressing `from`'s worldstate through `a` gives `to`'s worldstate.
   */
  ghost predicate RegressionStep(from: Node, a: Action, to: Node, start: WorldState, checked: set<Action>, helps: EffectCheck)
    reads from`worldstate, to`worldstate
  {
    a in checked &&
    helps(a, from.worldstate, start, Unsatisfied(from.worldstate, start)) &&
    to.worldstate == ApplyPreconditions(a, from.worldstate, start)
  }

  /** The i-th node of n's path, counting n itself as the last one. */
  function PathNode(n: Node, i: nat): Node
    requires i <= |n.parentNodes|
  {
    if i < |n.parentNodes| then n.parentNodes[i] else n
  }

  /** Step i of n's path, from its i-th node over its i-th action to the next node, is a regression step. */
  ghost predicate StepAt(n: Node, i: nat, start: WorldState, checked: set<Action>, helps: EffectCheck)
    reads n`worldstate, n.parentNodes`worldstate
    requires i < |n.parentNodes| == |n.parentActions|
  {
    RegressionStep(n.parentNodes[i], n.parentActions[i], PathNode(n, i + 1), start, checked, helps)
  }

  /**
   * Node n lies on a regression from the goal node: its path is well formed, starts at the goal
   * node, and each of its steps is a regression step.
   */
  ghost predicate Regressed(n: Node, goalNode: Node, start: WorldState, checked: set<Action>, helps: EffectCheck)
    reads n`worldstate, n.parentNodes`worldstate
  {
    n.WellFormed() && n.Root() == goalNode &&
    forall i | 0 <= i < |n.parentNodes| :: StepAt(n, i, start, checked, helps)
  }

  /** A child obtained by expanding a regressed node over a checked, helpful action is regressed too. */
  lemma ChildRegressed(p: Node, c: Node, a: Action, goalNode: Node, start: WorldState, checked: set<Action>, helps: EffectCheck)
    requires Regressed(p, goalNode, start, checked, helps)
    requires c.action == Some(a) && c.parentNodes == p.parentNodes + [p] && c.parentActions == p.parentActions + [a]
    requires RegressionStep(p, a, c, start, checked, helps)
    ensures Regressed(c, goalNode, start, checked, helps)
  {
    ChildWellFormed(p, c, a);
    var k := |p.parentNodes|;
    forall i | 0 <= i < |c.parentNodes| ensures StepAt(c, i, start, checked, helps) {
      if i < k {
        assert StepAt(p, i, start, checked, helps);
        assert c.parentNodes[i] == p.parentNodes[i] && c.parentActions[i] == p.parentActions[i];
        assert PathNode(c, i + 1) == PathNode(p, i + 1);
      } else {
        assert c.parentNodes[i] == p && c.parentActions[i] == a && PathNode(c, i + 1) == c;
      }
    }
  }

  /** `a` is a checked action that the effect check judges able to help a node with worldstate `ws`. */
  predicate HelpfulFor(a: Action, ws: WorldState, start: WorldState, checked: set<Action>, helps: EffectCheck)
  {
    a in checked && helps(a, ws, start, Unsatisfied(ws, start))
  }

  /**
   * `kids` are the children of expanding `p`: one per checked action that helps `p`, and no
   * other; each extends `p`'s path, holds `p`'s worldstate regressed through its action, and has
   * the heuristic computed against the goal worldstate `goal`.
   */
  ghost predicate Expansion(p: Node, kids: seq<Node>, start: WorldState, goal: WorldState, checked: set<Action>, helps: EffectCheck)
    reads p`worldstate, kids`worldstate, kids`heuristic
  {
    (forall i, j | 0 <= i < j < |kids| :: kids[i].action != kids[j].action) &&
    (forall i | 0 <= i < |kids| ::
      kids[i].action.Some? && kids[i].parentNodes == p.parentNodes + [p] &&
      kids[i].worldstate == ApplyPreconditions(kids[i].action.value, p.worldstate, start) &&
      kids[i].heuristic == Distance(kids[i].worldstate, start, Some(goal))) &&
    (forall a :: (exists i | 0 <= i < |kids| :: kids[i].action == Some(a)) <==> HelpfulFor(a, p.worldstate, start, checked, helps))
  }

  /**
   * One iteration of the search loop that does not end it: `d` is the open list; its first node
   * is popped, the start worldstate does not match it, and expanding it gives `kids`; `next` is
   * the rest of the open list with the children added, re-sorted by total cost.
   */
  ghost predicate Iteration(d: seq<Node>, kids: seq<Node>, next: seq<Node>, start: WorldState, goal: WorldState,
                            checked: set<Action>, helps: EffectCheck)
    reads d`heuristic, d`worldstate, kids`heuristic, kids`worldstate
  {
    d != [] && !Matches(start, d[0].worldstate) &&
    Expansion(d[0], kids, start, goal, checked, helps) &&
    Costed(d[1..] + kids) && next == SortByCost(d[1..] + kids)
  }

  /** The nodes of a list of lists. */
  ghost function NodesOf(lists: seq<seq<Node>>): set<Node>
  {
    set ns, n | ns in lists && n in ns :: n
  }

  /** Each node of each list is among the nodes of the lists. */
  lemma NodesOfHolds(lists: seq<seq<Node>>)
    ensures forall i, n | 0 <= i < |lists| && n in lists[i] :: n in NodesOf(lists)
  {
    forall i, n | 0 <= i < |lists| && n in lists[i] ensures n in NodesOf(lists) {
      assert lists[i] in lists;
    }
  }

  /**
   * A run of the search loop: `deques[i]` is the open list at the start of iteration i and
   * `expansions[i]` the children of the node popped in it; every iteration but the last ended
   * without a match, and the last open list is where the run stands.
   */
  ghost predicate Traced(deques: seq<seq<Node>>, expansions: seq<seq<Node>>, start: WorldState, goal: WorldState,
                         checked: set<Action>, helps: EffectCheck)
    reads NodesOf(deques)`heuristic, NodesOf(deques)`worldstate
    reads NodesOf(expansions)`heuristic, NodesOf(expansions)`worldstate
  {
    |deques| == |expansions| + 1 &&
    (NodesOfHolds(deques); NodesOfHolds(expansions);
     forall i | 0 <= i < |expansions| :: Iteration(deques[i], expansions[i], deques[i + 1], start, goal, checked, helps))
  }

  /** A run of the search loop followed by one more iteration from where it stands is a run. */
  lemma TraceAppend(deques: seq<seq<Node>>, expansions: seq<seq<Node>>, kids: seq<Node>, next: seq<Node>,
                    start: WorldState, goal: WorldState, checked: set<Action>, helps: EffectCheck)
    requires Traced(deques, expansions, start, goal, checked, helps)
    requires Iteration(deques[|deques| - 1], kids, next, start, goal, checked, helps)
    ensures Traced(deques + [next], expansions + [kids], start, goal, checked, helps)
  {
    var ds, es := deques + [next], expansions + [kids];
    forall i | 0 <= i < |es| ensures Iteration(ds[i], es[i], ds[i + 1], start, goal, checked, helps) {
      if i < |expansions| {
        assert ds[i] == deques[i] && es[i] == expansions[i] && ds[i + 1] == deques[i + 1];
      } else {
        assert ds[i] == deques[|deques| - 1] && es[i] == kids && ds[i + 1] == next;
      }
    }
  }

  /**
   * A run of the search loop extended by one more iteration: the last open list is non-empty, the
   * start worldstate does not match its first node, and expanding that node gave `kids`.
   * This is `TraceAppend` with the next open list written out; the two are kept apart because
   * the solver handles the step far more reliably when the next open list is a plain parameter.
   */
  lemma TraceGrows(deques: seq<seq<Node>>, expansions: seq<seq<Node>>, kids: seq<Node>,
                   start: WorldState, goal: WorldState, checked: set<Action>, helps: EffectCheck)
    requires Traced(deques, expansions, start, goal, checked, helps)
    requires var d := deques[|deques| - 1];
      d != [] && !Matches(start, d[0].worldstate) && Expansion(d[0], kids, start, goal, checked, helps) &&
      Costed(d[1..] + kids)
    ensures var d := deques[|deques| - 1];
      Traced(deques + [SortByCost(d[1..] + kids)], expansions + [kids], start, goal, checked, helps)
  {
    var d := deques[|deques| - 1];
    TraceAppend(deques, expansions, kids, SortByCost(d[1..] + kids), start, goal, checked, helps);
  }

  /**
   * A node waiting in the open list: its heuristic is the one computed for it, it has not been
   * expanded, and it lies on a regression from the goal node.
   */
  ghost predicate Waiting(n: Node, goalNode: Node, start: WorldState, checked: set<Action>, helps: EffectCheck)
    reads n`heuristic, n`children, n`worldstate, n.parentNodes`worldstate
  {
    n.heuristic.Some? && n.heuristic == n.ExpectedHeuristic(start) && n.children == [] &&
    Regressed(n, goalNode, start, checked, helps)
  }

  /** The children of a waiting node, built over checked and helpful actions, wait in turn. */
  lemma ChildrenWaiting(p: Node, kids: seq<Node>, helpful: seq<Action>, goalNode: Node,
                        start: WorldState, checked: set<Action>, helps: EffectCheck)
    requires Regressed(p, goalNode, start, checked, helps)
    requires |kids| == |helpful|
    requires forall i | 0 <= i < |kids| :: p.IsChild(kids[i], helpful[i], start)
    requires forall a | a in helpful :: a in checked && helps(a, p.worldstate, start, Unsatisfied(p.worldstate, start))
    ensures forall n | n in kids :: Waiting(n, goalNode, start, checked, helps)
  {
    forall n | n in kids ensures Waiting(n, goalNode, start, checked, helps) {
      var i :| 0 <= i < |kids| && kids[i] == n;
      assert helpful[i] in helpful;
      ChildRegressed(p, n, helpful[i], goalNode, start, checked, helps);
      ChildWellFormed(p, n, helpful[i]);
    }
  }

  /**
   * Children built over the helpful checked actions of a waiting node, one per action and in
   * their order, are its expansion, and each of them waits.
   */
  lemma ChildrenExpand(p: Node, kids: seq<Node>, helpful: seq<Action>, goalNode: Node,
                       start: WorldState, checked: set<Action>, helps: EffectCheck)
    requires Regressed(p, goalNode, start, checked, helps)
    requires |kids| == |helpful| && Distinct(helpful)
    requires forall i | 0 <= i < |kids| :: p.IsChild(kids[i], helpful[i], start)
    requires forall a :: a in helpful <==> HelpfulFor(a, p.worldstate, start, checked, helps)
    ensures Expansion(p, kids, start, goalNode.worldstate, checked, helps)
    ensures forall n | n in kids :: Waiting(n, goalNode, start, checked, helps)
  {
    ChildrenWaiting(p, kids, helpful, goalNode, start, checked, helps);
    assert p.Root() == goalNode;
    forall a ensures (exists i | 0 <= i < |kids| :: kids[i].action == Some(a)) <==> HelpfulFor(a, p.worldstate, start, checked, helps) {
      if a in helpful {
        var i :| 0 <= i < |helpful| && helpful[i] == a;
        assert kids[i].action == Some(a);
      }
    }
  }

  /** The actions of the catalog whose freeform context holds. */
  ghost function ContextChecked(actions: seq<Action>, context: ContextCheck): set<Action>
  {
    set a | a in actions && context(a)
  }

  /**
   * The check at the start of `plan`: the actions whose freeform context holds, collected in a
   * set; the others are left out of the whole run.
   */
  method CheckFreeformContexts(actions: seq<Action>, context: ContextCheck) returns (checked: set<Action>)
    ensures forall a :: a in checked <==> a in actions && context(a)
    ensures checked == ContextChecked(actions, context)
  {
    checked := {};
    for i := 0 to |actions|
      invariant forall a :: a in checked <==> a in actions[..i] && context(a)
    {
      if context(actions[i]) {
        checked := checked + {actions[i]};
      }
    }
    assert actions[..|actions|] == actions;
  }

  /** Joining two lists without repetitions and without common elements repeats nothing. */
  lemma DistinctConcat<T>(a: seq<T>, b: seq<T>)
    requires Distinct(a) && Distinct(b)
    requires forall x | x in a :: x !in b
    ensures Distinct(a + b)
  {
    var c := a + b;
    forall i, j | 0 <= i < j < |c| ensures c[i] != c[j] {
      if j >= |a| && i < |a| {
        assert c[i] in a && c[j] == b[j - |a|];
      }
    }
  }

  /** The head of a list without repetitions does not occur in its tail. */
  lemma HeadNotInTail<T>(s: seq<T>)
    requires s != [] && Distinct(s)
    ensures s[0] !in s[1..]
  {
    forall k | 0 <= k < |s| - 1 ensures s[1..][k] != s[0] {
      assert s[1..][k] == s[k + 1];
    }
  }

  /**
   * The open list after an expansion: the remaining nodes and the new children, none of them
   * twice, re-sorted by total cost; every node still waits and comes from one of the two lists.
   */
  lemma Requeued(rest: seq<Node>, kids: seq<Node>, goalNode: Node, start: WorldState, checked: set<Action>, helps: EffectCheck)
    requires Distinct(rest) && Distinct(kids)
    requires forall x | x in rest :: x !in kids
    requires forall i | 0 <= i < |rest| :: Waiting(rest[i], goalNode, start, checked, helps)
    requires forall i | 0 <= i < |kids| :: Waiting(kids[i], goalNode, start, checked, helps)
    ensures Costed(rest + kids)
    ensures var sorted := SortByCost(rest + kids);
      Distinct(sorted) && SortedByCost(sorted) &&
      (forall n | n in sorted :: n in rest || n in kids) &&
      (forall i | 0 <= i < |sorted| :: Waiting(sorted[i], goalNode, start, checked, helps))
  {
    var pending := rest + kids;
    DistinctConcat(rest, kids);
    assert forall i | 0 <= i < |pending| :: Waiting(pending[i], goalNode, start, checked, helps);
    var sorted := SortByCost(pending);
    forall i | 0 <= i < |sorted| ensures Waiting(sorted[i], goalNode, start, checked, helps) {
      assert sorted[i] in pending;
      var j :| 0 <= j < |pending| && pending[j] == sorted[i];
    }
  }

  /**
   * The re-sort after an expansion keeps older nodes ahead: among the nodes of equal total cost,
   * those that were already in the open list come first, in their previous order, and then the
   * new children, in the order they were built.
   */
  lemma OldNodesFirst(rest: seq<Node>, kids: seq<Node>)
    requires Costed(rest) && Costed(kids)
    ensures Costed(rest + kids)
    ensures forall k :: StableSort.WithKey(Keyed(SortByCost(rest + kids)), k) ==
                        StableSort.WithKey(Keyed(rest), k) + StableSort.WithKey(Keyed(kids), k)
  {
    KeyedConcat(rest, kids);
    forall k ensures StableSort.WithKey(Keyed(rest + kids), k) ==
                     StableSort.WithKey(Keyed(rest), k) + StableSort.WithKey(Keyed(kids), k)
    {
      StableSort.WithKeyConcat(Keyed(rest), Keyed(kids), k);
    }
  }

  class Planner {
    const actions: seq<Action>
    var startWorldstate: WorldState
    var goal: Goal
    /** The goal node of the latest run of `Plan`. */
    var lastGoalNode: Node?

    constructor (actions: seq<Action>, worldstate: WorldState, goal: Goal)
      ensures this.actions == actions && startWorldstate == worldstate && this.goal == goal
      ensures lastGoalNode == null
    {
      this.actions := actions;
      startWorldstate := worldstate;
      this.goal := goal;
      lastGoalNode := null;
    }

    /**
     * `_filter_matching_actions`: the actions that the effect check judges able to help with the
     * conditions on which the node's worldstate and the start worldstate disagree. The actions
     * come from a set, so the order of the result is the set's iteration order.
     */
    method FilterMatchingActions(nodeWorldstate: WorldState, actions: set<Action>, helps: EffectCheck)
      returns (helpful: seq<Action>)
      ensures forall a :: a in helpful <==>
        a in actions && helps(a, nodeWorldstate, startWorldstate, Unsatisfied(nodeWorldstate, startWorldstate))
      ensures Distinct(helpful)
    {
      var unsatisfied := Unsatisfied(nodeWorldstate, startWorldstate);
      helpful := [];
      var todo := actions;
      while todo != {}
        invariant todo <= actions
        invariant forall a :: a in helpful <==>
          a in actions - todo && helps(a, nodeWorldstate, startWorldstate, unsatisfied)
        invariant Distinct(helpful)
        decreases todo
      {
        var a :| a in todo;
        if helps(a, nodeWorldstate, startWorldstate, unsatisfied) {
          helpful := helpful + [a];
        }
        todo := todo - {a};
      }
    }

    /**
     * `plan`: searches backwards from the goal for a node whose worldstate the start worldstate
     * matches. A start worldstate or goal given as argument replaces the stored one.
     * Found: the node matches the start and lies on a regression from this run's goal node that
     * uses only actions of the catalog whose freeform context held.
     * NoPlan: the open list ran empty or the loop limit was hit.
     * Raised: a heuristic raised an exception, which `plan` does not catch.
     * `deques` and `expansions` record the run of the search loop (see `Traced`): it starts from
     * the open list holding only the new goal node, and its last open list decides the outcome.
     * A found node is the cheapest of that list; a raised exception comes from a child of its
     * first node whose heuristic has no value.
     */
    method Plan(start: Option<WorldState>, newGoal: Option<Goal>, context: ContextCheck, helps: EffectCheck)
      returns (r: PlanResult, ghost deques: seq<seq<Node>>, ghost expansions: seq<seq<Node>>)
      modifies this
      ensures startWorldstate == (if start.Some? then start.value else old(startWorldstate))
      ensures goal == (if newGoal.Some? then newGoal.value else old(goal))
      ensures lastGoalNode != null && fresh(lastGoalNode) && lastGoalNode.IsGoal()
      ensures lastGoalNode.worldstate == GoalWorldState(goal)
      ensures lastGoalNode.heuristic == Some(|Unsatisfied(lastGoalNode.worldstate, startWorldstate)| as real)
      ensures r.Found? ==> fresh(r.node) && Matches(startWorldstate, r.node.worldstate)
      ensures r.Found? ==>
        Regressed(r.node, lastGoalNode, startWorldstate, ContextChecked(actions, context), helps)
      ensures r.Found? ==> r.node.heuristic == r.node.ExpectedHeuristic(startWorldstate) && r.node.children == []
      ensures 0 < |deques| <= LoopLimit + 1 && |expansions| == |deques| - 1 && deques[0] == [lastGoalNode]
      ensures Traced(deques, expansions, startWorldstate, lastGoalNode.worldstate, ContextChecked(actions, context), helps)
      ensures var last := deques[|deques| - 1];
        Costed(last) && SortedByCost(last) &&
        (r.NoPlan? <==> last == [] || |deques| == LoopLimit + 1) &&
        (r.Found? ==> r.node == last[0] && forall n | n in last :: r.node.TotalCost() <= n.TotalCost()) &&
        (r.Raised? ==>
           !Matches(startWorldstate, last[0].worldstate) &&
           exists a :: HelpfulFor(a, last[0].worldstate, startWorldstate, ContextChecked(actions, context), helps) &&
             Distance(ApplyPreconditions(a, last[0].worldstate, startWorldstate), startWorldstate,
                      Some(lastGoalNode.worldstate)).None? &&
             RaisesFault(ApplyPreconditions(a, last[0].worldstate, startWorldstate), startWorldstate,
                         lastGoalNode.worldstate, r.fault))
    {
      if start.Some? {
        startWorldstate := start.value;
      }
      if newGoal.Some? {
        goal := newGoal.value;
      }
      var checked := CheckFreeformContexts(actions, context);

      var goalNode := new Node(GoalWorldState(goal), None, [], []);
      var _ := goalNode.CalcHeuristic(startWorldstate);
      lastGoalNode := goalNode;
      assert goalNode.WellFormed() && goalNode.Root() == goalNode;
      r, deques, expansions := Search(goalNode, checked, helps);
    }

    /**
     * The rest of an iteration of the search loop of `plan` once the popped node `current` did
     * not match: expand it over the checked actions that help with it, add its children to the
     * rest of the open list and re-sort it by total cost; or return the exception a child's
     * heuristic raised. `deques` and `expansions` are the run of the loop so far, which ends
     * with the open list `current` was popped from.
     */
    method Expand(current: Node, rest: seq<Node>, goalNode: Node, checked: set<Action>, helps: EffectCheck,
                  ghost deques: seq<seq<Node>>, ghost expansions: seq<seq<Node>>)
      returns (r: Result<seq<Node>, Fault>, kids: seq<Node>)
      requires deques != [] && deques[|deques| - 1] != []
      requires deques[|deques| - 1][0] == current && deques[|deques| - 1][1..] == rest
      requires !Matches(startWorldstate, current.worldstate)
      requires Waiting(current, goalNode, startWorldstate, checked, helps)
      requires forall i | 0 <= i < |rest| :: rest[i] != current && Waiting(rest[i], goalNode, startWorldstate, checked, helps)
      requires Distinct(rest)
      requires Traced(deques, expansions, startWorldstate, goalNode.worldstate, checked, helps)
      modifies current`children
      ensures r.Err? ==> Traced(deques, expansions, startWorldstate, goalNode.worldstate, checked, helps)
      ensures r.Err? ==>
        exists a :: HelpfulFor(a, current.worldstate, startWorldstate, checked, helps) &&
          Distance(ApplyPreconditions(a, current.worldstate, startWorldstate), startWorldstate, Some(goalNode.worldstate)).None? &&
          RaisesFault(ApplyPreconditions(a, current.worldstate, startWorldstate), startWorldstate, goalNode.worldstate, r.error)
      ensures r.Ok? ==> current.children == kids && Expansion(current, kids, startWorldstate, goalNode.worldstate, checked, helps)
      ensures r.Ok? ==> Costed(rest + kids) && r.value == SortByCost(rest + kids)
      ensures r.Ok? ==> Costed(r.value) && SortedByCost(r.value) && Distinct(r.value)
      ensures r.Ok? ==> forall n | n in r.value :: n in rest || fresh(n)
      ensures r.Ok? ==> forall i | 0 <= i < |r.value| :: Waiting(r.value[i], goalNode, startWorldstate, checked, helps)
      ensures r.Ok? ==> Traced(deques + [r.value], expansions + [kids], startWorldstate, goalNode.worldstate, checked, helps)
    {
      var expanded := ExpandNode(current, goalNode, checked, helps, deques, expansions);
      if expanded.Err? {
        return Err(expanded.error), [];
      }
      kids := expanded.value;
      forall n | n in kids ensures fresh(n) && n !in rest {
        var i :| 0 <= i < |kids| && kids[i] == n;
      }
      Requeued(rest, kids, goalNode, startWorldstate, checked, helps);
      TraceGrows(deques, expansions, kids, startWorldstate, goalNode.worldstate, checked, helps);
      r := Ok(SortByCost(rest + kids));
    }

    /**
     * `get_child_nodes` over the helpful actions, as seen by the search loop: it changes the
     * children of `current` only, so a run of the loop recorded so far stays recorded.
     */
    method ChildNodes(current: Node, helpful: seq<Action>, goal: WorldState, checked: set<Action>, helps: EffectCheck,
                      ghost deques: seq<seq<Node>>, ghost expansions: seq<seq<Node>>)
      returns (r: Result<seq<Node>, Fault>)
      requires current.children == []
      requires Traced(deques, expansions, startWorldstate, goal, checked, helps)
      modifies current`children
      ensures Traced(deques, expansions, startWorldstate, goal, checked, helps)
      ensures current.worldstate == old(current.worldstate)
      ensures |current.children| <= |helpful| && Distinct(current.children)
      ensures forall i | 0 <= i < |current.children| ::
        fresh(current.children[i]) && current.IsChild(current.children[i], helpful[i], startWorldstate)
      ensures r.Ok? ==> r.value == current.children && |current.children| == |helpful|
      ensures r.Err? ==> |current.children| < |helpful|
      ensures r.Err? ==>
        Distance(ApplyPreconditions(helpful[|current.children|], current.worldstate, startWorldstate),
                 startWorldstate, Some(current.Root().worldstate)).None?
      ensures r.Err? ==>
        RaisesFault(ApplyPreconditions(helpful[|current.children|], current.worldstate, startWorldstate),
                    startWorldstate, current.Root().worldstate, r.error)
    {
      r := current.GetChildNodes(helpful, startWorldstate);
    }

    /**
     * The children of a waiting node, each waiting in turn. Expanding a node leaves a run of the
     * search loop recorded so far unchanged.
     */
    method ExpandNode(current: Node, goalNode: Node, checked: set<Action>, helps: EffectCheck,
                      ghost deques: seq<seq<Node>>, ghost expansions: seq<seq<Node>>)
      returns (r: Result<seq<Node>, Fault>)
      requires Waiting(current, goalNode, startWorldstate, checked, helps)
      requires Traced(deques, expansions, startWorldstate, goalNode.worldstate, checked, helps)
      modifies current`children
      ensures Traced(deques, expansions, startWorldstate, goalNode.worldstate, checked, helps)
      ensures r.Ok? ==> Distinct(r.value)
      ensures r.Ok? ==> forall i | 0 <= i < |r.value| ::
        fresh(r.value[i]) && Waiting(r.value[i], goalNode, startWorldstate, checked, helps)
      ensures r.Ok? ==> current.children == r.value && Expansion(current, r.value, startWorldstate, goalNode.worldstate, checked, helps)
      ensures r.Err? ==>
        exists a :: HelpfulFor(a, current.worldstate, startWorldstate, checked, helps) &&
          Distance(ApplyPreconditions(a, current.worldstate, startWorldstate), startWorldstate, Some(goalNode.worldstate)).None? &&
          RaisesFault(ApplyPreconditions(a, current.worldstate, startWorldstate), startWorldstate, goalNode.worldstate, r.error)
    {
      var helpful := FilterMatchingActions(current.worldstate, checked, helps);
      r := ChildNodes(current, helpful, goalNode.worldstate, checked, helps, deques, expansions);
      if r.Ok? {
        ChildrenExpand(current, r.value, helpful, goalNode, startWorldstate, checked, helps);
      } else {
        assert helpful[|current.children|] in helpful;
        assert current.Root() == goalNode;
      }
    }

    /**
     * The search loop of `plan`, from the goal node: pop the cheapest node of the open list,
     * stop if the start worldstate matches it, otherwise expand it over the helpful checked
     * actions and re-sort the open list with its children added.
     */
    method Search(goalNode: Node, checked: set<Action>, helps: EffectCheck)
      returns (r: PlanResult, ghost deques: seq<seq<Node>>, ghost expansions: seq<seq<Node>>)
      requires Waiting(goalNode, goalNode, startWorldstate, checked, helps)
      modifies goalNode`children
      ensures r.Found? ==> (r.node == goalNode || fresh(r.node)) && Matches(startWorldstate, r.node.worldstate)
      ensures r.Found? ==> Waiting(r.node, goalNode, startWorldstate, checked, helps)
      ensures 0 < |deques| <= LoopLimit + 1 && |expansions| == |deques| - 1 && deques[0] == [goalNode]
      ensures Traced(deques, expansions, startWorldstate, goalNode.worldstate, checked, helps)
      ensures var last := deques[|deques| - 1];
        Costed(last) && SortedByCost(last) &&
        (r.NoPlan? <==> last == [] || |deques| == LoopLimit + 1) &&
        (r.Found? ==> r.node == last[0] && forall n | n in last :: r.node.TotalCost() <= n.TotalCost()) &&
        (r.Raised? ==>
           !Matches(startWorldstate, last[0].worldstate) &&
           exists a :: HelpfulFor(a, last[0].worldstate, startWorldstate, checked, helps) &&
             Distance(ApplyPreconditions(a, last[0].worldstate, startWorldstate), startWorldstate, Some(goalNode.worldstate)).None? &&
             RaisesFault(ApplyPreconditions(a, last[0].worldstate, startWorldstate), startWorldstate, goalNode.worldstate, r.fault))
    {
      var open := [goalNode];
      var loopcount := 0;
      deques, expansions := [open], [];
      while |open| != 0
        invariant 0 <= loopcount <= LoopLimit
        invariant |deques| == loopcount + 1 && |expansions| == loopcount
        invariant deques[0] == [goalNode] && deques[loopcount] == open
        invariant Costed(open) && SortedByCost(open) && Distinct(open)
        invariant forall n | n in open :: n == goalNode || fresh(n)
        invariant forall i | 0 <= i < |open| :: Waiting(open[i], goalNode, startWorldstate, checked, helps)
        invariant Traced(deques, expansions, startWorldstate, goalNode.worldstate, checked, helps)
        decreases LoopLimit - loopcount
      {
        loopcount := loopcount + 1;
        if loopcount > LoopLimit {
          break;
        }
        var current := open[0];
        assert current in open;
        HeadNotInTail(open);
        forall n | n in open[1..]
          ensures n in open && (n == goalNode || fresh(n)) && current.TotalCost() <= n.TotalCost()
        {
          var i :| 0 <= i < |open[1..]| && open[1..][i] == n;
          assert open[i + 1] == n;
        }
        ghost var popped := open;
        assert popped == deques[|deques| - 1];
        open := open[1..];
        if Matches(startWorldstate, current.worldstate) {
          return Found(current), deques, expansions;
        }
        var expanded, kids := Expand(current, open, goalNode, checked, helps, deques, expansions);
        if expanded.Err? {
          return Raised(expanded.error), deques, expansions;
        }
        ghost var rest := open;
        open := expanded.value;
        forall n | n in open ensures n == goalNode || fresh(n) {
          if n in rest {
            assert n in popped;
          }
        }
        deques, expansions := deques + [open], expansions + [kids];
      }
      r := NoPlan;
    }
  }
}
