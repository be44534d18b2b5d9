/**
 * Python's `sorted(items, key=...)`: the key of every item is computed once, then the
 * (item, key) pairs are sorted stably by key. Modelled as an insertion sort on such pairs.
 */
module StableSort {

  predicate SortedByKey<T>(s: seq<(T, real)>)
  {
    forall i, j | 0 <= i < j < |s| :: s[i].1 <= s[j].1
  }

  /** Inserts x before the first pair whose key is at least x's, so x goes ahead of its equals. */
  function Insert<T>(x: (T, real), s: seq<(T, real)>): (r: seq<(T, real)>)
    requires SortedByKey(s)
    ensures multiset(r) == multiset(s) + multiset{x}
    ensures SortedByKey(r)
  {
    if s == [] || x.1 <= s[0].1 then
      PrependSorted(x, s);
      [x] + s
    else
      var rest := Insert(x, s[1..]);
      InsertBehind(x, s, rest);
      [s[0]] + rest
  }

  /**
   * When x goes behind the head of s, the head followed by x inserted into the tail is sorted and
   * holds the pairs of s and x.
   */
  lemma InsertBehind<T>(x: (T, real), s: seq<(T, real)>, rest: seq<(T, real)>)
    requires SortedByKey(s) && s != [] && s[0].1 < x.1
    requires multiset(rest) == multiset(s[1..]) + multiset{x} && SortedByKey(rest)
    ensures multiset([s[0]] + rest) == multiset(s) + multiset{x}
    ensures SortedByKey([s[0]] + rest)
  {
    assert s == [s[0]] + s[1..];
    forall y | y in rest ensures s[0].1 <= y.1 {
      assert y in multiset(rest);
      if y != x {
        var i :| 0 <= i < |s[1..]| && s[1..][i] == y;
        assert s[i + 1] == y;
      }
    }
    PrependSorted(s[0], rest);
  }

  /** A pair whose key is no larger than any key of a sorted list can go in front of it. */
  lemma PrependSorted<T>(y: (T, real), t: seq<(T, real)>)
    requires SortedByKey(t)
    requires forall z | z in t :: y.1 <= z.1
    ensures SortedByKey([y] + t)
  {
    var r := [y] + t;
    forall i, j | 0 <= i < j < |r| ensures r[i].1 <= r[j].1 {
      if i > 0 {
        assert r[i] == t[i - 1] && r[j] == t[j - 1];
      } else {
        assert r[j] in t;
      }
    }
  }

  /** A stable sort by key. */
  function Sort<T>(s: seq<(T, real)>): (r: seq<(T, real)>)
    ensures multiset(r) == multiset(s)
    ensures SortedByKey(r)
  {
    if s == [] then []
    else
      assert s == [s[0]] + s[1..];
      Insert(s[0], Sort(s[1..]))
  }

  /** The pairs of s whose key is k, in their order in s. */
  function WithKey<T>(s: seq<(T, real)>, k: real): seq<(T, real)>
  {
    if s == [] then [] else (if s[0].1 == k then [s[0]] else []) + WithKey(s[1..], k)
  }

  /** The pairs with key k of two joined lists: those of the first list, then those of the second. */
  lemma {:induction false} WithKeyConcat<T>(s: seq<(T, real)>, t: seq<(T, real)>, k: real)
    ensures WithKey(s + t, k) == WithKey(s, k) + WithKey(t, k)
  {
    if s != [] {
      WithKeyConcat(s[1..], t, k);
      assert (s + t)[1..] == s[1..] + t;
    } else {
      assert s + t == t && WithKey(s, k) + WithKey(t, k) == WithKey(t, k);
    }
  }

  /** A pair with key k in front of a list is the first pair with key k. */
  lemma WithKeyIn<T>(y: (T, real), t: seq<(T, real)>, k: real)
    requires y.1 == k
    ensures WithKey([y] + t, k) == [y] + WithKey(t, k)
  {
    assert ([y] + t)[1..] == t;
  }

  /** A pair with another key in front of a list is skipped. */
  lemma WithKeyOut<T>(y: (T, real), t: seq<(T, real)>, k: real)
    requires y.1 != k
    ensures WithKey([y] + t, k) == WithKey(t, k)
  {
    assert ([y] + t)[1..] == t;
    assert [] + WithKey(t, k) == WithKey(t, k);
  }

  /**
   * Moving y, whose key is smaller than x's, from behind x to in front of it leaves the pairs of
   * every key in the same order (x and y never share a key).
   */
  lemma SwapPast<T>(x: (T, real), y: (T, real), t: seq<(T, real)>, u: seq<(T, real)>, k: real)
    requires y.1 < x.1
    requires WithKey(u, k) == WithKey([x] + t, k)
    ensures WithKey([y] + u, k) == WithKey([x] + ([y] + t), k)
  {
    if x.1 == k {
      WithKeyOut(y, u, k);
      WithKeyIn(x, t, k);
      WithKeyIn(x, [y] + t, k);
      WithKeyOut(y, t, k);
    } else if y.1 == k {
      WithKeyIn(y, u, k);
      WithKeyOut(x, t, k);
      WithKeyOut(x, [y] + t, k);
      WithKeyIn(y, t, k);
    } else {
      WithKeyOut(y, u, k);
      WithKeyOut(x, t, k);
      WithKeyOut(x, [y] + t, k);
      WithKeyOut(y, t, k);
    }
  }

  lemma {:induction false} InsertIsStable<T>(x: (T, real), s: seq<(T, real)>, k: real)
    requires SortedByKey(s)
    ensures WithKey(Insert(x, s), k) == WithKey([x] + s, k)
  {
    if !(s == [] || x.1 <= s[0].1) {
      var rest := Insert(x, s[1..]);
      InsertIsStable(x, s[1..], k);
      SwapPast(x, s[0], s[1..], rest, k);
      assert [s[0]] + s[1..] == s;
    }
  }

  /**
   * The sort is stable: for every key, the pairs with that key keep their relative order, so an
   * item earlier in the input stays ahead of a later item with an equal key.
   */
  lemma {:induction false} SortIsStable<T>(s: seq<(T, real)>, k: real)
    ensures WithKey(Sort(s), k) == WithKey(s, k)
  {
    if s != [] {
      SortIsStable(s[1..], k);
      InsertIsStable(s[0], Sort(s[1..]), k);
      assert ([s[0]] + Sort(s[1..]))[1..] == Sort(s[1..]);
    }
  }
}
