/**
 * Python's `sorted(xs, key=k)`: a stable sort by an integer key, written as
 * an insertion sort that inserts each element in front of the first one
 * whose key is not smaller.
 */
module Sorting {

  /** Keys never decrease along `s`. */
  ghost predicate SortedBy<T>(s: seq<T>, key: T -> int) {
    forall i, j :: 0 <= i < j < |s| ==> key(s[i]) <= key(s[j])
  }

  /** The elements of `s` whose key is `k`, in their order in `s`. */
  function WithKey<T>(s: seq<T>, key: T -> int, k: int): (r: seq<T>)
    ensures |r| <= |s|
    ensures forall x :: x in r ==> x in s && key(x) == k
  {
    if |s| == 0 then []
    else (if key(s[0]) == k then [s[0]] else []) + WithKey(s[1..], key, k)
  }

  /** `x` placed in front of the first element of `t` whose key is not below its own. */
  function Insert<T>(x: T, t: seq<T>, key: T -> int): (r: seq<T>)
    ensures multiset(r) == multiset(t) + multiset{x}
    ensures |r| == |t| + 1
  {
    if |t| == 0 || key(x) <= key(t[0]) then [x] + t
    else
      assert t == [t[0]] + t[1..];
      [t[0]] + Insert(x, t[1..], key)
  }

  /** The stable sort of `s` by `key`. */
  function SortBy<T>(s: seq<T>, key: T -> int): (r: seq<T>)
    ensures multiset(r) == multiset(s)
    ensures |r| == |s|
  {
    if |s| == 0 then []
    else
      assert s == [s[0]] + s[1..];
      Insert(s[0], SortBy(s[1..], key), key)
  }

  /** Inserting an element with a key of at least `b` among such elements keeps every key at least `b`. */
  lemma {:induction false} InsertAbove<T>(x: T, t: seq<T>, key: T -> int, b: int)
    requires key(x) >= b && forall i :: 0 <= i < |t| ==> key(t[i]) >= b
    ensures forall i :: 0 <= i < |Insert(x, t, key)| ==> key(Insert(x, t, key)[i]) >= b
    decreases |t|
  {
    if |t| > 0 && key(x) > key(t[0]) {
      InsertAbove(x, t[1..], key, b);
    }
  }

  /** Inserting into a sorted list keeps it sorted. */
  lemma {:induction false} InsertSorted<T>(x: T, t: seq<T>, key: T -> int)
    requires SortedBy(t, key)
    ensures SortedBy(Insert(x, t, key), key)
    decreases |t|
  {
    if |t| > 0 && key(x) > key(t[0]) {
      var r := Insert(x, t[1..], key);
      SortedTail(t, key);
      InsertSorted(x, t[1..], key);
      InsertAbove(x, t[1..], key, key(t[0]));
      assert Insert(x, t, key) == [t[0]] + r;
      ConsSorted(t[0], r, key);
    } else {
      assert Insert(x, t, key) == [x] + t;
      ConsSorted(x, t, key);
    }
  }

  /** Dropping the first element of a sorted list leaves it sorted, above that element. */
  lemma SortedTail<T>(t: seq<T>, key: T -> int)
    requires SortedBy(t, key) && |t| > 0
    ensures SortedBy(t[1..], key) && forall i :: 0 <= i < |t[1..]| ==> key(t[1..][i]) >= key(t[0])
  {
    forall i | 0 <= i < |t[1..]| ensures key(t[1..][i]) >= key(t[0]) {
      assert t[1..][i] == t[i + 1];
    }
    forall i, j | 0 <= i < j < |t[1..]| ensures key(t[1..][i]) <= key(t[1..][j]) {
      assert t[1..][i] == t[i + 1] && t[1..][j] == t[j + 1];
    }
  }

  /** An element with a key no greater than any in a sorted list can go in front of it. */
  lemma ConsSorted<T>(y: T, r: seq<T>, key: T -> int)
    requires SortedBy(r, key) && forall i :: 0 <= i < |r| ==> key(r[i]) >= key(y)
    ensures SortedBy([y] + r, key)
  {
    var u := [y] + r;
    forall i, j | 0 <= i < j < |u| ensures key(u[i]) <= key(u[j]) {
      assert u[j] == r[j - 1];
      if i > 0 {
        assert u[i] == r[i - 1];
      }
    }
  }

  /** The result of the sort is sorted. */
  lemma {:induction false} SortBySorted<T>(s: seq<T>, key: T -> int)
    ensures SortedBy(SortBy(s, key), key)
    decreases |s|
  {
    if |s| > 0 {
      SortBySorted(s[1..], key);
      InsertSorted(s[0], SortBy(s[1..], key), key);
    }
  }

  /** Selecting by key distributes over putting an element in front. */
  lemma WithKeyCons<T>(y: T, r: seq<T>, key: T -> int, k: int)
    ensures WithKey([y] + r, key, k) == (if key(y) == k then [y] else []) + WithKey(r, key, k)
  {
    assert ([y] + r)[1..] == r;
  }

  /** Two lists of which one is empty can be put in front of a third in either order. */
  lemma SwapApart<T>(a: seq<T>, b: seq<T>, w: seq<T>)
    requires a == [] || b == []
    ensures a + (b + w) == b + (a + w)
  {
    if a == [] {
      assert a + (b + w) == b + w == b + (a + w);
    } else {
      assert a + (b + w) == a + w == b + (a + w);
    }
  }

  /**
   * Insertion only ever passes elements whose key is below the inserted
   * one's, so among the elements of one key the inserted element comes first.
   */
  lemma {:induction false} InsertStable<T>(x: T, t: seq<T>, key: T -> int, k: int)
    ensures WithKey(Insert(x, t, key), key, k) == (if key(x) == k then [x] else []) + WithKey(t, key, k)
    decreases |t|
  {
    if |t| == 0 || key(x) <= key(t[0]) {
      WithKeyCons(x, t, key, k);
    } else {
      var r := Insert(x, t[1..], key);
      assert Insert(x, t, key) == [t[0]] + r;
      InsertStable(x, t[1..], key, k);
      WithKeyCons(t[0], r, key, k);
      WithKeyCons(t[0], t[1..], key, k);
      assert t == [t[0]] + t[1..];
      // `x` and `t[0]` have different keys, so at most one of them is selected.
      SwapApart(if key(t[0]) == k then [t[0]] else [], if key(x) == k then [x] else [], WithKey(t[1..], key, k));
    }
  }

  /** The sort is stable: the elements of each key keep their relative order. */
  lemma {:induction false} SortByStable<T>(s: seq<T>, key: T -> int, k: int)
    ensures WithKey(SortBy(s, key), key, k) == WithKey(s, key, k)
    decreases |s|
  {
    if |s| > 0 {
      SortByStable(s[1..], key, k);
      InsertStable(s[0], SortBy(s[1..], key), key, k);
    }
  }
}
