/**
 * The planner's open list of nodes and its re-sort after each expansion:
 * `deque(sorted(child_nodes, key=lambda node: node.total_cost()))`.
 */
module OpenList {
  import opened Nodes
  import StableSort

  /** Every node of the list has its heuristic, so its total cost is defined. */
  predicate Costed(s: seq<Node>)
    reads s`heuristic
  {
    forall n :: n in s ==> n.heuristic.Some?
  }

  predicate SortedByCost(s: seq<Node>)
    reads s`heuristic
    requires Costed(s)
  {
    forall i, j | 0 <= i < j < |s| :: s[i].TotalCost() <= s[j].TotalCost()
  }

  /** Each node paired with its total cost, the key computed once per node. */
  function Keyed(s: seq<Node>): (r: seq<(Node, real)>)
    reads s`heuristic
    requires Costed(s)
    ensures |r| == |s| && forall i | 0 <= i < |s| :: r[i] == (s[i], s[i].TotalCost())
  {
    if s == [] then [] else [(s[0], s[0].TotalCost())] + Keyed(s[1..])
  }

  /** The nodes of a keyed list, keys dropped. */
  function Items(s: seq<(Node, real)>): (r: seq<Node>)
    ensures |r| == |s| && forall i | 0 <= i < |s| :: r[i] == s[i].0
  {
    if s == [] then [] else [s[0].0] + Items(s[1..])
  }

  /**
   * The open list sorted stably by total cost: the same nodes, cheapest first, and (by
   * StableSort.SortIsStable) nodes of equal cost in their previous order.
   */
  function SortByCost(s: seq<Node>): (r: seq<Node>)
    reads s`heuristic
    requires Costed(s)
    ensures (forall n :: n in s ==> n in r) && (forall n :: n in r ==> n in s)
    ensures Costed(r) && SortedByCost(r)
    ensures Distinct(s) ==> Distinct(r)
    ensures forall k :: StableSort.WithKey(Keyed(r), k) == StableSort.WithKey(Keyed(s), k)
  {
    var keyed := Keyed(s);
    var sorted := StableSort.Sort(keyed);
    SortKeepsNodes(s, keyed, sorted);
    SortKeepsOrder(s, keyed, sorted);
    Items(sorted)
  }

  /**
   * The re-sort is stable: for every total cost, the nodes with that cost keep the order they had
   * in the open list before the sort.
   */
  lemma SortKeepsOrder(s: seq<Node>, keyed: seq<(Node, real)>, sorted: seq<(Node, real)>)
    requires Costed(s) && keyed == Keyed(s) && sorted == StableSort.Sort(keyed)
    ensures Costed(Items(sorted))
    ensures forall k :: StableSort.WithKey(Keyed(Items(sorted)), k) == StableSort.WithKey(keyed, k)
  {
    SortedPairsAreKeyed(s, keyed, sorted);
    assert Keyed(Items(sorted)) == sorted;
    forall k ensures StableSort.WithKey(sorted, k) == StableSort.WithKey(keyed, k) {
      StableSort.SortIsStable(keyed, k);
    }
  }

  /** Keying two joined lists keys each of them. */
  lemma KeyedConcat(a: seq<Node>, b: seq<Node>)
    requires Costed(a) && Costed(b)
    ensures Costed(a + b) && Keyed(a + b) == Keyed(a) + Keyed(b)
  {
  }

  lemma SortKeepsNodes(s: seq<Node>, keyed: seq<(Node, real)>, sorted: seq<(Node, real)>)
    requires Costed(s) && keyed == Keyed(s)
    requires multiset(sorted) == multiset(keyed) && StableSort.SortedByKey(sorted)
    ensures (forall n :: n in s ==> n in Items(sorted)) && (forall n :: n in Items(sorted) ==> n in s)
    ensures Costed(Items(sorted)) && SortedByCost(Items(sorted))
    ensures Distinct(s) ==> Distinct(Items(sorted))
  {
    SortedPairsAreKeyed(s, keyed, sorted);
    var r := Items(sorted);
    forall n | n in s ensures n in r {
      var j :| 0 <= j < |s| && s[j] == n;
      assert keyed[j] in multiset(sorted);
      var i :| 0 <= i < |sorted| && sorted[i] == keyed[j];
      assert r[i] == n;
    }
    forall i, j | 0 <= i < j < |r| ensures r[i].TotalCost() <= r[j].TotalCost() {
      assert sorted[i].1 <= sorted[j].1;
    }
    if Distinct(s) {
      SortedKeepsDistinct(s, keyed, sorted);
    }
  }

  /** Every pair of the sorted list is a node of s with its own total cost. */
  lemma SortedPairsAreKeyed(s: seq<Node>, keyed: seq<(Node, real)>, sorted: seq<(Node, real)>)
    requires Costed(s) && keyed == Keyed(s)
    requires multiset(sorted) == multiset(keyed)
    ensures forall i | 0 <= i < |sorted| :: sorted[i].0 in s && sorted[i].0.heuristic.Some? &&
                                           sorted[i].1 == sorted[i].0.TotalCost()
  {
    forall i | 0 <= i < |sorted|
      ensures sorted[i].0 in s && sorted[i].0.heuristic.Some? && sorted[i].1 == sorted[i].0.TotalCost()
    {
      assert sorted[i] in multiset(keyed);
      var j :| 0 <= j < |keyed| && keyed[j] == sorted[i];
    }
  }

  lemma SortedKeepsDistinct(s: seq<Node>, keyed: seq<(Node, real)>, sorted: seq<(Node, real)>)
    requires Costed(s) && keyed == Keyed(s) && Distinct(s)
    requires multiset(sorted) == multiset(keyed)
    requires forall i | 0 <= i < |sorted| :: sorted[i].0 in s && sorted[i].0.heuristic.Some? &&
                                            sorted[i].1 == sorted[i].0.TotalCost()
    ensures Distinct(Items(sorted))
  {
    var r := Items(sorted);
    assert Distinct(keyed);
    DistinctCount(keyed);
    forall i, j | 0 <= i < j < |r| ensures r[i] != r[j] {
      if r[i] == r[j] {
        assert sorted[i] == sorted[j];
        DuplicateCount(sorted, i, j);
        assert false;
      }
    }
  }

  /** A list without repetitions holds each value at most once. */
  lemma {:induction false} DistinctCount<T>(s: seq<T>)
    requires Distinct(s)
    ensures forall x :: multiset(s)[x] <= 1
  {
    if s != [] {
      assert s == [s[0]] + s[1..];
      DistinctCount(s[1..]);
      assert s[0] !in s[1..];
    }
  }

  /** A value at two positions of a list occurs at least twice in it. */
  lemma DuplicateCount<T>(s: seq<T>, i: nat, j: nat)
    requires i < j < |s| && s[i] == s[j]
    ensures multiset(s)[s[i]] >= 2
  {
    assert s == s[..i] + [s[i]] + s[i + 1..j] + [s[j]] + s[j + 1..];
  }
}
