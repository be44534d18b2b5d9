/**
 * `Node` of rgoap/src/rgoap/planning.py: one vertex of the regressive search tree.
 * The worldstate, the heuristic distance and the list of child nodes are updated after the node
 * is built, so they are mutable fields; the action and the two path lists never change.
 */
module Nodes {
  import opened Wrappers
  import opened WorldStates
  import opened Actions
  import opened Heuristic

  /** No element occurs twice. */
  predicate Distinct<T(==)>(s: seq<T>)
  {
    forall i, j | 0 <= i < j < |s| :: s[i] != s[j]
  }

  class Node {
    /** The worldstate at this node (updated in place by the executor when the previous step runs). */
    var worldstate: WorldState
    /** The action that leads forward from this node to its parent; None only for the goal node. */
    const action: Option<Action>
    /** The nodes from the goal node up to this node's parent. */
    const parentNodes: seq<Node>
    /** The actions from the goal node up to this node's own action. */
    const parentActions: seq<Action>
    /** The heuristic distance, computed at most once. */
    var heuristic: Option<real>
    /** The nodes found by expanding this node, filled at most once. */
    var children: seq<Node>

    constructor (worldstate: WorldState, action: Option<Action>, parentNodes: seq<Node>, parentActions: seq<Action>)
      ensures this.worldstate == worldstate && this.action == action
      ensures this.parentNodes == parentNodes && this.parentActions == parentActions
      ensures heuristic == None && children == []
    {
      this.worldstate := worldstate;
      this.action := action;
      this.parentNodes := parentNodes;
      this.parentActions := parentActions;
      heuristic := None;
      children := [];
    }

    predicate IsGoal()
    {
      action.None?
    }

    /** The last node of the parent path: the node this node's action leads to. */
    function ParentNode(): Node
      requires parentNodes != []
    {
      parentNodes[|parentNodes| - 1]
    }

    /** The cost of this node's action; the goal node costs nothing. */
    function Cost(): nat
    {
      if IsGoal() then 0 else action.value.cost
    }

    /** This node's cost plus the cost of every node on the path back to the goal. */
    function PathCost(): nat
    {
      Cost() + SumCosts(parentNodes)
    }

    /** The search priority: path cost plus heuristic distance. */
    function TotalCost(): real
      reads this`heuristic
      requires heuristic.Some?
    {
      PathCost() as real + heuristic.value
    }

    /** The goal node of this node's path (the node itself for the goal node). */
    function Root(): Node
    {
      if parentNodes == [] then this else parentNodes[0]
    }

    /**
     * The shape every node the planner builds has: the goal node has no action and empty path
     * lists; any other node's action is the last of its action path, and its parent node carries
     * the paths one step shorter.
     */
    predicate WellFormed()
      decreases |parentNodes|
    {
      |parentNodes| == |parentActions| &&
      (action.None? <==> parentNodes == []) &&
      (parentNodes != [] ==>
        var k := |parentNodes| - 1;
        action == Some(parentActions[k]) &&
        parentNodes[k].parentNodes == parentNodes[..k] &&
        parentNodes[k].parentActions == parentActions[..k] &&
        parentNodes[k].WellFormed())
    }

    /** The heuristic distance `_calc_heuristic_distance_for_node` computes for this node. */
    ghost function ExpectedHeuristic(start: WorldState): Option<real>
      reads this`worldstate, parentNodes`worldstate
    {
      Distance(worldstate, start, if IsGoal() || parentNodes == [] then None else Some(parentNodes[0].worldstate))
    }

    /**
     * `_calc_heuristic_distance_for_node`: sets the heuristic distance against the start
     * worldstate. It may be called only once per node. When a condition raises, the exception is
     * returned and the heuristic stays unset.
     */
    method CalcHeuristic(start: WorldState) returns (r: Result<real, Fault>)
      requires heuristic.None?
      requires IsGoal() || parentNodes != []
      modifies this`heuristic
      ensures heuristic == ExpectedHeuristic(start)
      ensures r.Ok? <==> heuristic.Some?
      ensures r.Ok? ==> heuristic == Some(r.value)
      ensures r.Err? ==> exists c :: Raises(c, worldstate, start, parentNodes[0].worldstate) &&
                                    ConditionDistance(c, worldstate, start, parentNodes[0].worldstate) == Err(r.error)
    {
      var u := Unsatisfied(worldstate, start);
      if IsGoal() {
        heuristic := Some(|u| as real);
        return Ok(|u| as real);
      }
      var goal := parentNodes[0].worldstate;
      var summed := SumConditionDistances(worldstate, start, goal);
      if summed.Err? {
        return Err(summed.error);
      }
      var sum := summed.value;
      SummedDistance(worldstate, start, goal, sum);
      var capped := if (|u| as real) < sum then |u| as real else sum;
      heuristic := Some(capped);
      r := Ok(capped);
    }

    /** `c` is the child this node gets for action `a`: fresh worldstate copy, extended paths, heuristic computed. */
    ghost predicate IsChild(c: Node, a: Action, start: WorldState)
      reads this`worldstate, parentNodes`worldstate, c`worldstate, c`heuristic, c`children
    {
      c.action == Some(a) &&
      c.parentNodes == parentNodes + [this] &&
      c.parentActions == parentActions + [a] &&
      c.worldstate == ApplyPreconditions(a, worldstate, start) &&
      c.heuristic.Some? &&
      c.heuristic == Distance(c.worldstate, start, Some(Root().worldstate)) &&
      c.children == []
    }

    /** One child of `get_child_nodes`: the new node for action `a` with its heuristic computed. */
    method NewChild(a: Action, start: WorldState) returns (c: Node, h: Result<real, Fault>)
      ensures fresh(c)
      ensures h.Ok? ==> IsChild(c, a, start)
      ensures h.Err? ==> Distance(ApplyPreconditions(a, worldstate, start), start, Some(Root().worldstate)).None?
      ensures h.Err? ==> RaisesFault(ApplyPreconditions(a, worldstate, start), start, Root().worldstate, h.error)
    {
      c := new Node(ApplyPreconditions(a, worldstate, start), Some(a), parentNodes + [this], parentActions + [a]);
      h := c.CalcHeuristic(start);
      assert c.parentNodes[0] == Root();
    }

    /**
     * `get_child_nodes`: one new child per action, in the order given, kept in `children`.
     * It may be called only while `children` is empty. When a child's heuristic raises, the
     * exception is returned and `children` holds the children built before it.
     */
    method GetChildNodes(actions: seq<Action>, start: WorldState) returns (r: Result<seq<Node>, Fault>)
      requires children == []
      modifies this`children
      ensures worldstate == old(worldstate)
      ensures |children| <= |actions| && Distinct(children)
      ensures forall i | 0 <= i < |children| :: fresh(children[i]) && IsChild(children[i], actions[i], start)
      ensures r.Ok? ==> r.value == children && |children| == |actions|
      ensures r.Err? ==> |children| < |actions|
      ensures r.Err? ==>
        Distance(ApplyPreconditions(actions[|children|], worldstate, start), start, Some(Root().worldstate)).None?
      ensures r.Err? ==>
        RaisesFault(ApplyPreconditions(actions[|children|], worldstate, start), start, Root().worldstate, r.error)
    {
      var i := 0;
      while i < |actions|
        invariant 0 <= i <= |actions| && |children| == i
        invariant Distinct(children)
        invariant forall j | 0 <= j < i :: fresh(children[j]) && IsChild(children[j], actions[j], start)
      {
        var node, h := NewChild(actions[i], start);
        if h.Err? {
          return Err(h.error);
        }
        children := children + [node];
        i := i + 1;
      }
      r := Ok(children);
    }
  }

  /** The sum of the nodes' own costs. */
  function SumCosts(ns: seq<Node>): nat
  {
    if ns == [] then 0 else SumCosts(ns[..|ns| - 1]) + ns[|ns| - 1].Cost()
  }

  /**
   * Every node on a well-formed path is itself well formed and carries the prefixes of the path
   * before it.
   */
  lemma {:induction false} PathPrefixes(n: Node)
    requires n.WellFormed()
    ensures forall i | 0 <= i < |n.parentNodes| ::
      n.parentNodes[i].WellFormed() &&
      n.parentNodes[i].parentNodes == n.parentNodes[..i] &&
      n.parentNodes[i].parentActions == n.parentActions[..i]
    decreases |n.parentNodes|
  {
    if n.parentNodes != [] {
      var k := |n.parentNodes| - 1;
      var p := n.parentNodes[k];
      PathPrefixes(p);
      forall i | 0 <= i < k
        ensures n.parentNodes[i].WellFormed()
        ensures n.parentNodes[i].parentNodes == n.parentNodes[..i]
        ensures n.parentNodes[i].parentActions == n.parentActions[..i]
      {
        assert n.parentNodes[i] == p.parentNodes[i];
        assert p.parentNodes[..i] == n.parentNodes[..i];
        assert p.parentActions[..i] == n.parentActions[..i];
      }
    }
  }

  /**
   * A well-formed path starts at a goal node and holds no node twice, the node itself included:
   * the i-th node of the path has a path of length i.
   */
  lemma PathDistinct(n: Node)
    requires n.WellFormed()
    ensures n.parentNodes != [] ==> n.parentNodes[0].IsGoal() && n.Root().IsGoal()
    ensures Distinct(n.parentNodes + [n])
  {
    PathPrefixes(n);
    var s := n.parentNodes + [n];
    forall i, j | 0 <= i < j < |s| ensures s[i] != s[j] {
      assert |s[i].parentNodes| == i;
      assert |s[j].parentNodes| == j;
    }
  }

  /**
   * A node other than the goal node is not on its own path, and neither is its parent node on the
   * parent's path; the parent is well formed and carries the path one step shorter.
   */
  lemma ParentStep(n: Node)
    requires n.WellFormed() && !n.IsGoal()
    ensures n.ParentNode().WellFormed()
    ensures n.parentNodes == n.ParentNode().parentNodes + [n.ParentNode()]
    ensures n.parentActions == n.ParentNode().parentActions + [n.action.value]
    ensures n !in n.parentNodes && n.ParentNode() !in n.ParentNode().parentNodes
  {
    PathDistinct(n);
    var s := n.parentNodes + [n];
    var k := |n.parentNodes| - 1;
    forall i | 0 <= i < k ensures n.parentNodes[i] != n.parentNodes[k] && n.parentNodes[i] != n {
      assert s[i] != s[k] && s[i] != s[k + 1];
    }
    assert s[k] != s[k + 1];
  }

  /** The goal node is the node without an action; it has empty paths and costs nothing. */
  lemma GoalShape(n: Node)
    requires n.WellFormed()
    ensures n.IsGoal() <==> n.parentNodes == [] && n.parentActions == []
    ensures n.IsGoal() ==> n.Cost() == 0 && n.PathCost() == 0 && n.Root() == n
    ensures !n.IsGoal() ==> n.ParentNode().parentNodes + [n.ParentNode()] == n.parentNodes
  {
  }

  /** The path cost of a well-formed node is the sum of the costs of its whole action path. */
  lemma {:induction false} PathCostIsActionCosts(n: Node)
    requires n.WellFormed()
    ensures n.PathCost() == ActionCosts(n.parentActions)
    decreases |n.parentNodes|
  {
    if n.parentNodes != [] {
      var k := |n.parentNodes| - 1;
      var p := n.parentNodes[k];
      PathCostIsActionCosts(p);
      assert n.parentActions[..k] == p.parentActions;
    }
  }

  /** Expanding a well-formed node yields well-formed children whose parent node is the expanded node. */
  lemma ChildWellFormed(p: Node, c: Node, a: Action)
    requires p.WellFormed()
    requires c.action == Some(a) && c.parentNodes == p.parentNodes + [p] && c.parentActions == p.parentActions + [a]
    ensures c.WellFormed() && c.ParentNode() == p && c.Root() == p.Root()
  {
    assert c.parentNodes[..|c.parentNodes| - 1] == p.parentNodes;
    assert c.parentActions[..|c.parentActions| - 1] == p.parentActions;
  }
}
