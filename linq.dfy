/** The two query operators the widget applies to the player list: `Where`, which keeps the
    elements satisfying a predicate in their order, and `OrderBy`, a stable sort by an integer key. */
module Linq {

  /** `Where`: the elements of `s` that satisfy `keep`, in their original order. */
  function Where<T>(s: seq<T>, keep: T -> bool): (r: seq<T>)
    ensures forall i :: 0 <= i < |r| ==> keep(r[i])
    ensures |r| <= |s|
  {
    if s == [] then [] else (if keep(s[0]) then [s[0]] else []) + Where(s[1..], keep)
  }

  /** `Where` keeps every element that satisfies the predicate as often as it occurs, and drops
      every other element. */
  lemma {:induction false} WhereCount<T>(s: seq<T>, keep: T -> bool, x: T)
    ensures multiset(Where(s, keep))[x] == if keep(x) then multiset(s)[x] else 0
  {
    if s != [] {
      WhereCount(s[1..], keep, x);
      assert s == [s[0]] + s[1..];
    }
  }

  /** Filtering one more element at the end of the input appends it, if it is kept: `Where`
      keeps the input order. */
  lemma {:induction false} WhereSnoc<T>(s: seq<T>, x: T, keep: T -> bool)
    ensures Where(s + [x], keep) == Where(s, keep) + (if keep(x) then [x] else [])
  {
    if s == [] {
      assert [x][1..] == [];
    } else {
      assert (s + [x])[1..] == s[1..] + [x];
      WhereSnoc(s[1..], x, keep);
    }
  }

  /** Keys never decrease from left to right. */
  ghost predicate SortedBy<T>(s: seq<T>, key: T -> int)
  {
    forall i, j :: 0 <= i < j < |s| ==> key(s[i]) <= key(s[j])
  }

  /** The elements of `s` whose key is `k`, in their order in `s`. */
  function WithKey<T>(s: seq<T>, key: T -> int, k: int): seq<T>
  {
    if s == [] then []
    else WithKey(s[..|s| - 1], key, k) + Pick(s[|s| - 1], key, k)
  }

  /** Puts `x` after every element of `t` whose key is not greater than its own. */
  function Insert<T>(t: seq<T>, x: T, key: T -> int): (r: seq<T>)
    ensures |r| == |t| + 1
  {
    if t == [] then [x]
    else if key(t[|t| - 1]) <= key(x) then t + [x]
    else Insert(t[..|t| - 1], x, key) + [t[|t| - 1]]
  }

  /** `OrderBy`: the elements of `s` by nondecreasing key; elements with equal keys keep their
      order. Each element is inserted, in input order, after all earlier ones with a key not
      greater than its own. */
  function OrderBy<T>(s: seq<T>, key: T -> int): (r: seq<T>)
    ensures |r| == |s|
  {
    if s == [] then [] else Insert(OrderBy(s[..|s| - 1], key), s[|s| - 1], key)
  }

  lemma {:induction false} InsertElements<T>(t: seq<T>, x: T, key: T -> int)
    ensures multiset(Insert(t, x, key)) == multiset(t) + multiset{x}
  {
    if t != [] && key(t[|t| - 1]) > key(x) {
      var front, last := t[..|t| - 1], t[|t| - 1];
      calc {
        multiset(Insert(t, x, key));
        multiset(Insert(front, x, key) + [last]);
        multiset(Insert(front, x, key)) + multiset{last};
        { InsertElements(front, x, key); }
        multiset(front) + multiset{x} + multiset{last};
        { assert t == front + [last]; }
        multiset(t) + multiset{x};
      }
    }
  }

  lemma {:induction false} InsertSorted<T>(t: seq<T>, x: T, key: T -> int)
    requires SortedBy(t, key)
    ensures SortedBy(Insert(t, x, key), key)
  {
    if t != [] && key(t[|t| - 1]) > key(x) {
      var front, last := t[..|t| - 1], t[|t| - 1];
      InsertSorted(front, x, key);
      InsertBounded(front, x, key, key(last));
      assert Insert(t, x, key) == Insert(front, x, key) + [last];
    }
  }

  /** Inserting below a bound that all of `t` respects keeps every key below it. */
  lemma {:induction false} InsertBounded<T>(t: seq<T>, x: T, key: T -> int, bound: int)
    requires forall i :: 0 <= i < |t| ==> key(t[i]) <= bound
    requires key(x) <= bound
    ensures forall i :: 0 <= i < |Insert(t, x, key)| ==> key(Insert(t, x, key)[i]) <= bound
  {
    if t != [] && key(t[|t| - 1]) > key(x) {
      InsertBounded(t[..|t| - 1], x, key, bound);
    }
  }

  /** The element `y`, when its key is `k`. */
  function Pick<T>(y: T, key: T -> int, k: int): seq<T>
  {
    if key(y) == k then [y] else []
  }

  lemma WithKeySnoc<T>(u: seq<T>, y: T, key: T -> int, k: int)
    ensures WithKey(u + [y], key, k) == WithKey(u, key, k) + Pick(y, key, k)
  {
    assert (u + [y])[..|u|] == u;
  }

  /** The kept elements with key `k` are the elements with key `k` that are kept, in input order. */
  lemma {:induction false} WhereWithKey<T>(s: seq<T>, keep: T -> bool, key: T -> int, k: int)
    ensures WithKey(Where(s, keep), key, k) == Where(WithKey(s, key, k), keep)
  {
    if s != [] {
      var front, last := s[..|s| - 1], s[|s| - 1];
      assert s == front + [last];
      WhereWithKey(front, keep, key, k);
      WhereSnoc(front, last, keep);
      if keep(last) {
        WithKeySnoc(Where(front, keep), last, key, k);
      } else {
        assert Where(front, keep) + [] == Where(front, keep);
      }
      if key(last) == k {
        WhereSnoc(WithKey(front, key, k), last, keep);
      } else {
        assert WithKey(s, key, k) == WithKey(front, key, k);
      }
    }
  }

  lemma {:induction false} InsertWithKey<T>(t: seq<T>, x: T, key: T -> int, k: int)
    ensures WithKey(Insert(t, x, key), key, k) == WithKey(t, key, k) + Pick(x, key, k)
  {
    if t == [] {
    } else if key(t[|t| - 1]) <= key(x) {
      WithKeySnoc(t, x, key, k);
    } else {
      var front, last := t[..|t| - 1], t[|t| - 1];
      var u := Insert(front, x, key);
      calc {
        WithKey(Insert(t, x, key), key, k);
        WithKey(u + [last], key, k);
        { WithKeySnoc(u, last, key, k); }
        WithKey(u, key, k) + Pick(last, key, k);
        { InsertWithKey(front, x, key, k); }
        WithKey(front, key, k) + Pick(x, key, k) + Pick(last, key, k);
        { assert Pick(x, key, k) == [] || Pick(last, key, k) == []; }
        WithKey(front, key, k) + Pick(last, key, k) + Pick(x, key, k);
        { assert t == front + [last]; WithKeySnoc(front, last, key, k); }
        WithKey(t, key, k) + Pick(x, key, k);
      }
    }
  }

  /** `OrderBy` sorts by key. */
  lemma {:induction false} OrderBySorted<T>(s: seq<T>, key: T -> int)
    ensures SortedBy(OrderBy(s, key), key)
  {
    if s != [] {
      OrderBySorted(s[..|s| - 1], key);
      InsertSorted(OrderBy(s[..|s| - 1], key), s[|s| - 1], key);
    }
  }

  /** `OrderBy` neither drops nor duplicates an element. */
  lemma {:induction false} OrderByPermutes<T>(s: seq<T>, key: T -> int)
    ensures multiset(OrderBy(s, key)) == multiset(s)
  {
    if s != [] {
      var front, last := s[..|s| - 1], s[|s| - 1];
      var t := OrderBy(front, key);
      calc {
        multiset(OrderBy(s, key));
        multiset(Insert(t, last, key));
        { InsertElements(t, last, key); }
        multiset(t) + multiset{last};
        { OrderByPermutes(front, key); }
        multiset(front) + multiset{last};
        { assert s == front + [last]; }
        multiset(s);
      }
    }
  }

  /** `OrderBy` is stable: the elements with any one key appear in the same order as in the input. */
  lemma {:induction false} OrderByStable<T>(s: seq<T>, key: T -> int, k: int)
    ensures WithKey(OrderBy(s, key), key, k) == WithKey(s, key, k)
  {
    if s != [] {
      OrderByStable(s[..|s| - 1], key, k);
      InsertWithKey(OrderBy(s[..|s| - 1], key), s[|s| - 1], key, k);
    }
  }
}
