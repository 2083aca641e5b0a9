/**
 * The range query of ch4_Trees/01_BSTTraversalFindKeysInARange: the keys
 * of a subtree that lie in a range, collected by an in-order walk that
 * appends to one shared list. Keys are strings, compared as Python
 * compares strings, since the script reads keys and bounds from its input
 * without converting them.
 */
module BstRange {
  import opened PyText
  import opened BinaryTrees

  /** `lo <= k <= hi`, in Python's order of strings. */
  predicate InRange(k: string, lo: string, hi: string) {
    AtMost(lo, k) && AtMost(k, hi)
  }

  /**
   * A binary search tree as the tree class builds it: keys before a
   * node's key are to its left, the others, equal keys too, to its right.
   */
  ghost predicate IsBst(t: Tree<string>) {
    match t
    case Nil => true
    case Node(l, k, r) =>
      IsBst(l) && IsBst(r) &&
      (forall x :: x in Keys(l) ==> Below(x, k)) && (forall x :: x in Keys(r) ==> AtMost(k, x))
  }

  /** No string comes before a string it is at or after. */
  lemma BelowExcludes(a: string, b: string)
    ensures !(Below(a, b) && AtMost(b, a))
  {
    BelowIrreflexive(a);
    if Below(a, b) && Below(b, a) {
      BelowTransitive(a, b, a);
    }
  }

  /**
   * `tree.search(key)`: from the root down, left when `key` comes before
   * the node's key and right when after, the node holding `key`, or `None`
   * at a missing child. The tree class is not part of this model; this is
   * the search of a binary search tree it is used as.
   */
  function Search(t: Tree<string>, key: string): (r: Tree<string>)
    ensures r.Node? ==> r.key == key && Keys(r) <= Keys(t)
    ensures IsBst(t) ==> IsBst(r)
  {
    match t
    case Nil => Nil
    case Node(l, k, rt) =>
      if key == k then t else if Below(key, k) then Search(l, key) else Search(rt, key)
  }

  /** In a binary search tree the search finds a key exactly when the tree holds it. */
  lemma {:induction false} SearchFinds(t: Tree<string>, key: string)
    requires IsBst(t)
    ensures Search(t, key).Node? <==> key in Keys(t)
  {
    match t
    case Nil =>
    case Node(l, k, r) =>
      BelowExcludes(key, k);
      if key != k && Below(key, k) {
        SearchFinds(l, key);
      } else if key != k {
        SearchFinds(r, key);
      }
  }

  /**
   * The list `in_order_traversal` leaves behind when it starts from
   * `found`: the keys of `t` in order (left subtree, node, right subtree),
   * each in-range one appended unless the list holds it already. It only
   * grows, by at most one key per node.
   */
  function Collect(t: Tree<string>, lo: string, hi: string, found: seq<string>): (r: seq<string>)
    ensures found <= r && |r| <= |found| + Size(t)
  {
    match t
    case Nil => found
    case Node(l, k, rt) =>
      var afterLeft := Collect(l, lo, hi, found);
      var atNode := if InRange(k, lo, hi) && k !in afterLeft then afterLeft + [k] else afterLeft;
      Collect(rt, lo, hi, atNode)
  }

  /** What the walk leaves: the keys it started with and the in-range keys of the subtree, no others. */
  lemma {:induction false} CollectContents(t: Tree<string>, lo: string, hi: string, found: seq<string>)
    ensures forall k :: k in Collect(t, lo, hi, found) <==> k in found || (k in Keys(t) && InRange(k, lo, hi))
  {
    match t
    case Nil =>
    case Node(l, k, r) =>
      var afterLeft := Collect(l, lo, hi, found);
      var atNode := if InRange(k, lo, hi) && k !in afterLeft then afterLeft + [k] else afterLeft;
      CollectContents(l, lo, hi, found);
      CollectContents(r, lo, hi, atNode);
  }

  /** No element twice. */
  predicate Distinct(s: seq<string>) {
    forall i, j :: 0 <= i < j < |s| ==> s[i] != s[j]
  }

  /** Each element comes before the next, in Python's order of strings. */
  predicate Increasing(s: seq<string>) {
    forall i, j :: 0 <= i < j < |s| ==> Below(s[i], s[j])
  }

  /** The walk appends no key the list holds, so a list without repeats keeps none. */
  lemma {:induction false} CollectDistinct(t: Tree<string>, lo: string, hi: string, found: seq<string>)
    requires Distinct(found)
    ensures Distinct(Collect(t, lo, hi, found))
  {
    match t
    case Nil =>
    case Node(l, k, r) =>
      var afterLeft := Collect(l, lo, hi, found);
      var atNode := if InRange(k, lo, hi) && k !in afterLeft then afterLeft + [k] else afterLeft;
      CollectDistinct(l, lo, hi, found);
      CollectDistinct(r, lo, hi, atNode);
  }

  /**
   * On a binary search tree, starting from an increasing list of keys at or
   * before every key of the tree, the walk leaves an increasing list.
   */
  lemma {:induction false} CollectSorted(t: Tree<string>, lo: string, hi: string, found: seq<string>)
    requires IsBst(t) && Increasing(found)
    requires forall x, y :: x in found && y in Keys(t) ==> AtMost(x, y)
    ensures Increasing(Collect(t, lo, hi, found))
  {
    match t
    case Nil =>
    case Node(l, k, r) =>
      var afterLeft := Collect(l, lo, hi, found);
      assert Increasing(afterLeft) by {
        CollectSorted(l, lo, hi, found);
      }
      assert forall x :: x in afterLeft ==> AtMost(x, k) by {
        CollectContents(l, lo, hi, found);
      }
      var atNode := if InRange(k, lo, hi) && k !in afterLeft then afterLeft + [k] else afterLeft;
      assert Increasing(atNode) by {
        if atNode != afterLeft {
          AppendKey(afterLeft, k);
        }
      }
      assert forall x, y :: x in atNode && y in Keys(r) ==> AtMost(x, y) by {
        forall x, y | x in atNode && y in Keys(r) ensures AtMost(x, y) {
          AtMostTransitive(x, k, y);
        }
      }
      CollectSorted(r, lo, hi, atNode);
  }

  /** A key after every key of an increasing list extends it. */
  lemma AppendKey(s: seq<string>, k: string)
    requires Increasing(s) && k !in s && forall x :: x in s ==> AtMost(x, k)
    ensures Increasing(s + [k])
  {
    forall i, j | 0 <= i < j < |s| + 1 ensures Below((s + [k])[i], (s + [k])[j]) {
      if j == |s| {
        assert s[i] in s;
      }
    }
  }

  /** The list `keys_found` that the walk appends to, one list shared by all its recursive calls. */
  class KeyList {
    var keys: seq<string>

    /** `keys = []`. */
    constructor ()
      ensures keys == []
    {
      keys := [];
    }
  }

  /**
   * `in_order_traversal(starting_node, left, right, _, keys_found)`: walks
   * the subtree in order and appends to the shared list each key within
   * `[left, right]` that the list does not hold yet; a missing node adds
   * nothing.
   */
  method InOrderTraversal(node: Tree<string>, left: string, right: string, keysFound: KeyList)
    modifies keysFound
    ensures keysFound.keys == Collect(node, left, right, old(keysFound.keys))
    decreases node
  {
    if node.Nil? {
      return;
    }
    InOrderTraversal(node.left, left, right, keysFound);
    if AtMost(left, node.key) && AtMost(node.key, right) && node.key !in keysFound.keys {
      keysFound.keys := keysFound.keys + [node.key];
    }
    InOrderTraversal(node.right, left, right, keysFound);
  }

  /**
   * `find_in_range(tree, starting_node, range_min, range_max)`: the keys
   * within the range of the subtree under the node holding `startingKey`,
   * each once; none when no node holds it; increasing when the tree is a
   * binary search tree.
   */
  method FindInRange(tree: Tree<string>, startingKey: string, rangeMin: string, rangeMax: string)
      returns (keys: seq<string>)
    ensures Search(tree, startingKey).Nil? ==> keys == []
    ensures forall k :: k in keys <==> k in Keys(Search(tree, startingKey)) && InRange(k, rangeMin, rangeMax)
    ensures Distinct(keys)
    ensures IsBst(tree) ==> Increasing(keys)
  {
    var keysFound := new KeyList();
    var foundNode := Search(tree, startingKey);
    InOrderTraversal(foundNode, rangeMin, rangeMax, keysFound);
    keys := keysFound.keys;
    CollectContents(foundNode, rangeMin, rangeMax, []);
    CollectDistinct(foundNode, rangeMin, rangeMax, []);
    ghost var bst := IsBst(tree);
    if bst {
      CollectSorted(foundNode, rangeMin, rangeMax, []);
    }
  }
}
