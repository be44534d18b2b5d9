# RGOAP regressive planner in Dafny

This project models the planning core of RGOAP, a regressive goal-oriented action planner for
robots (rgoap/src/rgoap/planning.py). It covers three parts:

- **Node**: one vertex of the backward search tree. A node holds a worldstate, the action that
  leads forward to its parent, the paths of parent nodes and parent actions back to the goal, a
  heuristic distance that is computed once, and a list of children that is filled once.
- **Planner.plan**: a best-first search from the goal back to the start worldstate over a deque.
  The deque is stably re-sorted by total cost after every expansion, and the search gives up
  after 500 iterations.
- **PlanExecutor.execute**: walks a found plan forward from its start node to the goal node. At
  every step it checks the action and runs it on the next node's worldstate.

Modules, in dependency order:

- `Wrappers` (wrappers.dfy): `Option` and `Result`.
- `WorldStates` (world_state.dfy): worldstates as maps from conditions to values. It defines
  `matches` and `get_unsatisfied_conditions`.
- `Actions` (actions.dfy): actions, goals and the regression through an action's preconditions.
  The four hooks that cannot be seen (`check_freeform_context`, `has_satisfying_effects`,
  `is_valid`, `run`) are function values passed in by the caller.
- `Heuristic` (heuristic.dfy): the heuristic distance as a specification function, `Distance`.
  It also holds its condition loop, `SumConditionDistances`, and the exceptions the heuristic
  lets escape.
- `Nodes` (node.dfy): the `Node` class, whose worldstate, heuristic and children are mutable
  fields, together with path lemmas.
- `StableSort` (stable_sort.dfy): Python's `sorted(..., key=...)` as a stable insertion sort on
  (item, key) pairs.
- `OpenList` (open_list.dfy): the re-sort of the deque by `total_cost()`.
- `Planning` (planner.dfy): the `Planner` class.
  - `Plan` is `plan`. `Search` is its loop, and `Expand` is one iteration after a node that did
    not match was popped.
  - `Regressed` and `Waiting` are the invariants that the loop keeps for every node in the deque.
  - A run of the loop is recorded in two ghost results of `Search` and `Plan`: `deques`, the deque
    at the start of each iteration, and `expansions`, the children of the node popped in each.
    `Traced` says that every recorded iteration is an `Iteration`: the first node of the deque
    was popped, the start worldstate did not match it, and its children are its `Expansion`, one
    per checked action that helps. The next deque is the rest with the children added, stably
    re-sorted by total cost. The last recorded deque decides the outcome.
- `Execution` (executor.dfy): `execute` as a recursive method that writes each action's outcome
  into the next node's worldstate. It is specified by the walk function `Walk`, applied to the
  worldstates the path nodes hold on entry; these are passed to `Execute` as a ghost argument.

Python's exceptions that nothing catches are modelled as values:
- `KeyError` when the start worldstate lacks a goal condition;
- `ZeroDivisionError` when the goal, start and node values of an unsatisfied goal condition are
  all numbers and the goal value equals the start value.

A heuristic returns them as `Err`, and `plan` ends with `Raised`. When `plan` returns None, the
model returns `NoPlan`.

## Model

| member | source | states |
|---|---|---|
| WorldStates.MatchesIffNothingUnsatisfied | rgoap/src/rgoap/planning.py:234 | the start worldstate matches a node exactly when the node has no condition the start does not share |
| Actions.ApplyPreconditions | rgoap/src/rgoap/planning.py:160-161 | the regressed worldstate is a fresh map. The action's preconditions hold in it. Effect conditions fall back to their start value. Every other condition of the node keeps its value. |
| Actions.GoalWorldState | rgoap/src/rgoap/planning.py:209-210 | the goal worldstate holds exactly the goal's conditions |
| Heuristic.ConditionDistance | rgoap/src/rgoap/planning.py:116-144 | one unsatisfied condition's term is positive when it does not raise, which is the assertion at line 134. It raises exactly when the goal names the condition and either the start lacks it, giving `KeyError` of that condition, or all three values are numbers and goal equals start, giving `ZeroDivisionError`. It is 1 when the goal does not name the condition, and 1 when the node already has the goal value. |
| Heuristic.SumRemove | rgoap/src/rgoap/planning.py:116 | the sum over the unsatisfied set is the same whichever condition the set iteration yields first |
| Heuristic.SumAdd | rgoap/src/rgoap/planning.py:116-144 | adding one more condition to the summed set adds exactly its term |
| Heuristic.RaisingDistance | rgoap/src/rgoap/planning.py:116-126 | unfolds `Distance` for callers: one raising condition leaves the node without a heuristic distance |
| Heuristic.SumConditionDistances | rgoap/src/rgoap/planning.py:112-144 | the condition loop succeeds exactly when no unsatisfied condition raises, and then returns the sum of all terms. Otherwise it returns the exception of a raising condition. |
| Heuristic.SummedDistance | rgoap/src/rgoap/planning.py:146-147 | unfolds `Distance` for callers: without a raising condition, the distance is the sum capped at the number of unsatisfied conditions |
| Heuristic.SumPositive | rgoap/src/rgoap/planning.py:134-135 | a sum of non-raising terms is 0 for no conditions and positive otherwise |
| Heuristic.SumOfUnitContributions | rgoap/src/rgoap/planning.py:119-138 | when every term is 1, the sum is the number of conditions |
| Heuristic.DistanceBounds | rgoap/src/rgoap/planning.py:146-147 | a defined distance lies between 0 and the number of unsatisfied conditions, and is 0 exactly when the start matches the node |
| Heuristic.NonNumericDistance | rgoap/src/rgoap/planning.py:119-138 | a node whose unsatisfied conditions are all absent from the goal or non-numeric has a distance equal to their number |
| Nodes.Node.constructor | rgoap/src/rgoap/planning.py:61-68 | a new node has the given worldstate, action and paths, no heuristic and no children |
| Nodes.Node.CalcHeuristic | rgoap/src/rgoap/planning.py:98-147 | may run only while the heuristic is unset. Sets it to `Distance`: the number of unsatisfied conditions for the goal node, the capped sum otherwise. Returns it, or returns the exception of a raising condition and leaves it unset. |
| Nodes.Node.NewChild | rgoap/src/rgoap/planning.py:156-163 | one loop step: a fresh node that is this node's child for the action, with its heuristic, or the exception its heuristic raised: the one some unsatisfied condition of the child raises (`RaisesFault`) |
| Nodes.Node.GetChildNodes | rgoap/src/rgoap/planning.py:150-165 | may run only while there are no children. Builds one fresh child per action, in order: paths extended by this node and the action, worldstate regressed through the action, heuristic computed. Leaves this node's worldstate unchanged. On an exception, keeps the children built before it, and returns the exception that some unsatisfied condition of the next child raises. |
| Nodes.PathPrefixes | rgoap/src/rgoap/planning.py:52-58 | every node on a well-formed path is well formed and carries the prefixes of the path before it |
| Nodes.PathDistinct | rgoap/src/rgoap/planning.py:52-58 | a well-formed path begins at a goal node and holds no node twice, the node itself included |
| Nodes.ParentStep | rgoap/src/rgoap/planning.py:83-84 | `parent_node()` of a non-goal node is well formed, carries the paths one step shorter, and is not on its own path |
| Nodes.GoalShape | rgoap/src/rgoap/planning.py:56-59 | unfolds `WellFormed` for callers: a node is the goal exactly when its path lists are empty; the goal node costs nothing and is its own root. The docstring's claim at line 59 that the goal's heuristic distance is zero is not part of it: line 110 sets it to the number of unsatisfied conditions, and `CalcHeuristic` follows the code |
| Nodes.PathCostIsActionCosts | rgoap/src/rgoap/planning.py:86-92 | `path_cost()` equals the sum of the costs of the node's whole action path |
| Nodes.ChildWellFormed | rgoap/src/rgoap/planning.py:155-162 | a child built by expansion is well formed; its parent node is the expanding node and its goal node is the same |
| StableSort.Insert | rgoap/src/rgoap/planning.py:249 | inserting into a sorted list keeps it sorted and adds exactly the one pair |
| StableSort.InsertBehind | rgoap/src/rgoap/planning.py:249 | the head of a sorted list, followed by a pair inserted into the tail, is sorted and holds both |
| StableSort.PrependSorted | rgoap/src/rgoap/planning.py:249 | a pair whose key is no larger than any key of a sorted list may be put in front of it |
| StableSort.Sort | rgoap/src/rgoap/planning.py:249 | the sort returns a permutation of its input, sorted by key |
| StableSort.WithKeyIn | rgoap/src/rgoap/planning.py:246-249 | a pair with the key in front of a list comes first among the pairs with that key |
| StableSort.WithKeyOut | rgoap/src/rgoap/planning.py:246-249 | a pair with another key in front of a list does not change the pairs with the key |
| StableSort.SwapPast | rgoap/src/rgoap/planning.py:246-249 | moving a pair ahead of one with a larger key keeps, for every key, the order of the pairs with that key |
| StableSort.InsertIsStable | rgoap/src/rgoap/planning.py:246-249 | insertion keeps, for every key, the pairs with that key in their order |
| StableSort.SortIsStable | rgoap/src/rgoap/planning.py:246-249 | the sort is stable: for every key, the pairs with that key keep their input order, so older nodes stay ahead of newer ones of equal cost |
| OpenList.Keyed | rgoap/src/rgoap/planning.py:249 | each node is paired with its own total cost |
| OpenList.Items | rgoap/src/rgoap/planning.py:249 | dropping the keys keeps the nodes in order |
| OpenList.SortByCost | rgoap/src/rgoap/planning.py:246-249 | the re-sorted deque holds exactly the same nodes, sorted by total cost, and repeats none when the input repeats none. It is stable: for every total cost, the nodes with that cost keep their order from before the sort |
| OpenList.SortKeepsOrder | rgoap/src/rgoap/planning.py:246-249 | the stable pair sort, applied to the nodes keyed by total cost, keeps for every cost the order of the nodes with that cost |
| OpenList.SortKeepsNodes | rgoap/src/rgoap/planning.py:249 | a sorted permutation of the keyed nodes holds the same nodes, sorted by total cost, without repetitions |
| OpenList.SortedPairsAreKeyed | rgoap/src/rgoap/planning.py:249 | every pair of the sorted list is a node of the input with its own total cost |
| OpenList.SortedKeepsDistinct | rgoap/src/rgoap/planning.py:249 | sorting a deque without repeated nodes repeats none |
| OpenList.DistinctCount | rgoap/src/rgoap/planning.py:248-249 | a list without repetitions holds each node at most once |
| OpenList.DuplicateCount | rgoap/src/rgoap/planning.py:248-249 | a node at two positions occurs at least twice |
| Planning.ChildRegressed | rgoap/src/rgoap/planning.py:240-243 | a child built over a checked and helpful action of a regressed node is itself regressed from the same goal node |
| Planning.ChildrenWaiting | rgoap/src/rgoap/planning.py:240-243 | the children of a waiting node, built over checked and helpful actions, each wait in turn |
| Planning.ChildrenExpand | rgoap/src/rgoap/planning.py:240-243 | children built in order over the helpful checked actions of a waiting node are its expansion: exactly one child per such action, each with its regressed worldstate and heuristic, and each waits |
| Planning.TraceAppend | rgoap/src/rgoap/planning.py:221-249 | a recorded run of the loop followed by one more iteration from its last deque is again a recorded run |
| Planning.TraceGrows | rgoap/src/rgoap/planning.py:230-249 | when the start does not match the first node of the last recorded deque and expanding it gives `kids`, the run extends by the rest of that deque plus `kids`, re-sorted by total cost |
| Planning.CheckFreeformContexts | rgoap/src/rgoap/planning.py:196-202 | the checked actions are exactly the catalog's actions whose freeform context holds |
| Planning.DistinctConcat | rgoap/src/rgoap/planning.py:248 | extending a deque without repetitions by new nodes it does not hold repeats nothing |
| Planning.HeadNotInTail | rgoap/src/rgoap/planning.py:230 | the node taken by `popleft` is no longer in the deque |
| Planning.Requeued | rgoap/src/rgoap/planning.py:246-249 | after an expansion the re-sorted deque is sorted by total cost and holds no node twice. Each of its nodes came from the old deque or the children, and still waits. |
| Planning.OldNodesFirst | rgoap/src/rgoap/planning.py:246-249 | after an expansion, among the nodes of equal total cost, those already in the deque come first in their previous order, then the new children in the order they were built |
| Planning.Planner.constructor | rgoap/src/rgoap/planning.py:176-181 | stores the catalog, start worldstate and goal, with no last goal node |
| Planning.Planner.FilterMatchingActions | rgoap/src/rgoap/planning.py:254-270 | returns exactly the given actions for which `has_satisfying_effects` holds against the node's unsatisfied conditions, each once |
| Planning.Planner.Plan | rgoap/src/rgoap/planning.py:183-252 | see the list below the table |
| Planning.Planner.Expand | rgoap/src/rgoap/planning.py:240-249 | one iteration after a popped node did not match. The node's children are stored in it and are its expansion. The new deque is the rest of the old one plus the children, stably re-sorted by total cost: sorted, without repetitions, every node waiting, and the recorded run grows by this iteration. On an exception, a helpful checked action regresses the node to a worldstate whose heuristic raises, the exception returned is the one a condition of that worldstate raises, and the recorded run is unchanged |
| Planning.Planner.ExpandNode | rgoap/src/rgoap/planning.py:240-243 | on success the node's children are the result: exactly one fresh child per checked action that helps, none repeated, each waiting. On an exception, some checked action that helps regresses the node to a worldstate whose heuristic raises, and the exception returned is the one a condition of that worldstate raises. The recorded run of the loop is unchanged |
| Planning.Planner.ChildNodes | rgoap/src/rgoap/planning.py:242-243 | `get_child_nodes` as the loop sees it: the contract of `GetChildNodes`, plus the recorded run of the loop stays recorded, since only the node's children change |
| Planning.Planner.Search | rgoap/src/rgoap/planning.py:218-252 | the loop's run is recorded from the deque holding only the goal node, one `Iteration` per pass that did not end the loop, at most 500 of them. The last recorded deque is sorted by total cost and decides the outcome. `Found` is its first node, matched by the start worldstate and costing no more than any node of that deque; it is the goal node or a new node, and it waits. `Raised`: the start does not match its first node, and a helpful checked action regresses that node to a worldstate whose heuristic raises; the fault is the `KeyError` or `ZeroDivisionError` a condition of that worldstate raises. `NoPlan` exactly when that deque is empty or 500 iterations ran |
| Execution.Walk | rgoap/src/rgoap/planning.py:274-305 | a walk leaves as many path worldstates as it was given and runs at most one action per step; it reaches the goal exactly when every action ran |
| Execution.WalkKeeps | rgoap/src/rgoap/planning.py:291-305 | the nodes the walk did not reach keep their worldstates |
| Execution.WalkRuns | rgoap/src/rgoap/planning.py:291-296 | each node the walk reached holds what its leading action's `run` made of that node's earlier worldstate |
| Execution.WalkChecks | rgoap/src/rgoap/planning.py:291-294 | every action that ran was valid in its node's worldstate at that moment and its freeform context held |
| Execution.WalkStops | rgoap/src/rgoap/planning.py:291-305 | a walk that fails stops at an action that was not valid or whose freeform context failed |
| Execution.Execute | rgoap/src/rgoap/planning.py:275-305 | given the worldstates the path nodes hold on entry, returns true exactly when the walk over them reaches the goal node, and afterwards each path node holds the worldstate the walk leaves for it |

`Planning.Planner.Plan` states:
- it updates the start worldstate and the goal only when they are given;
- it creates a new goal node with the goal worldstate and the goal heuristic (the number of
  unsatisfied conditions), and keeps it as the last goal node;
- a node it returns is new and matched by the start worldstate;
- that node lies on a regression from this goal node. Every step uses an action whose freeform
  context held at the start of the run and which `has_satisfying_effects` judged helpful. Every
  step's worldstate is the previous one regressed through the action;
- the node's heuristic is the computed one;
- the run of the loop is recorded in the ghost results `deques` and `expansions` (`Traced`): it
  starts from the deque holding only the new goal node. Each recorded iteration popped the first
  node, found no match, expanded it over the checked actions that help, and re-sorted the rest
  with the children by total cost. At most 500 iterations are recorded;
- the last recorded deque is sorted by total cost and decides the outcome. A found node is its
  first node and costs no more than any node of it. `Raised` means its first node did not match
  and a helpful checked action regresses that node to a worldstate whose heuristic raises. The
  fault is the `KeyError` or `ZeroDivisionError` that a condition of that worldstate raises.
  `NoPlan` is returned exactly when it is empty or 500 iterations ran.

## Left out

- Logging, and the introspector hook of `execute`, are not modelled. Both are diagnostics only.
- The `WorldState`, `Action`, `Goal` and `Condition` classes of rgoap's `common` module are not
  part of this model. `matches`, `get_unsatisfied_conditions` and `Goal.apply_preconditions` are
  given their evident meaning.
- Actions.ApplyPreconditions: `Action.apply_preconditions` is not part of this model. The
  definition used here is one plausible reading: effect conditions fall back to the start value,
  then the preconditions are written.
- `check_freeform_context`, `has_satisfying_effects`, `is_valid` and `run` are function values
  passed in by the caller. They are treated as pure: each gives the same answer for the same
  arguments within one call of `plan` or `execute`.
- Actions are values (`Actions.Action`): two actions are equal exactly when their name, cost,
  preconditions and effects agree. Python compares Action objects by identity, in the set of
  checked actions (lines 197-202) and everywhere else. Two catalog entries with equal fields
  therefore become one checked action, and give one child per expansion instead of two, in the
  model. The hooks `check_freeform_context`, `has_satisfying_effects`, `is_valid` and `run` also
  give the same answers for both. Catalogs whose entries differ in at least one field, such as
  their names, are modelled exactly.
- Floating-point rounding in the heuristic is not modelled; the arithmetic is exact (`real`).
  Condition values are numbers or other symbols; Python booleans are the numbers 1 and 0.
- The order in which a Python set yields its elements is left open. This applies to the set of
  checked actions and the set of unsatisfied conditions. `FilterMatchingActions` and
  `SumConditionDistances` pick elements in any order, and the model does not fix the order of
  the helpful actions.
- Nodes.Node.CalcHeuristic: when a condition raises, Python leaves a partial sum in
  `heuristic_distance`. The model leaves the heuristic unset. The exception always escapes `plan`,
  so the partial value is never read.
- Nodes.Node.GetChildNodes: Python appends each child to the node's list `possible_prev_nodes`
  and returns that same list object. The model stores the children in the node and returns the
  same sequence as its result; aliasing between the returned list and the field is not modelled.
  A second call is excluded by a precondition, which stands for the assertion at line 154.
- Execution.Execute: also takes, as a ghost argument, the worldstates the path nodes hold on
  entry, and requires that they are the ones the nodes hold. The caller always has them, so this
  excludes no call; it lets the postcondition name the entry state without `old`.
- Execution.Execute: requires a well-formed path, not only the equal lengths asserted at line 277.
  Well-formed means each parent node carries the paths one step shorter. Every node the planner
  builds is well formed (`Nodes.ChildWellFormed`), but a hand-built node with equal-length lists
  that do not fit together is outside the model.
- Planning.Planner.Search: the search tree that Python leaves in `possible_prev_nodes` (the
  model's `children`) is stated only one expansion at a time, by `Expand`. After `Search` or
  `Plan`, no contract says that each expanded node's `children` still holds its expansion. The
  tree serves only visualization.
- Nodes.Node.CalcHeuristic: requires that a non-goal node has a parent path. Line 113 raises `IndexError` for a hand-built non-goal node whose path list is
  empty; that case is not modelled. Every child the planner builds has a parent path.
- `rgoap/src/rgoap/runner.py`, the SMACH bridge, the ROS introspection module and the robot
  configuration are not part of this model. Each of them wraps the planner with external effects
  (sensors, preemption, state machines, message types).
