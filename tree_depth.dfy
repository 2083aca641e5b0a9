/**
 * `maxDepth` of ch5_Balanced_Trees/02_avl_tree_vs_bst_tree, which the
 * script applies to the root of an AVL tree and of a binary search tree.
 * Only `left` and `right` of a node are read, so one tree type serves
 * both.
 */
module TreeDepth {
  import opened BinaryTrees

  /**
   * `maxDepth(node)`: -1 for a missing node, otherwise one more than the
   * larger depth of its two subtrees. It is -1 exactly for the empty tree
   * and 0 for a leaf.
   */
  function MaxDepth<K>(node: Tree<K>): (d: int)
    ensures -1 <= d
    ensures d == -1 <==> node.Nil?
    ensures node.Node? && node.left.Nil? && node.right.Nil? ==> d == 0
  {
    match node
    case Nil => -1
    case Node(l, _, r) =>
      var lDepth := MaxDepth(l);
      var rDepth := MaxDepth(r);
      if lDepth > rDepth then lDepth + 1 else rDepth + 1
  }

  /** The depth is at most one less than the number of nodes. */
  lemma {:induction false} DepthBelowSize<K>(t: Tree<K>)
    ensures MaxDepth(t) <= Size(t) - 1
  {
    match t
    case Nil =>
    case Node(l, _, r) =>
      DepthBelowSize(l);
      DepthBelowSize(r);
  }

  /** `t` has a node `n` edges below its root. */
  ghost predicate NodeAt<K>(t: Tree<K>, n: nat) {
    match t
    case Nil => false
    case Node(l, _, r) => n == 0 || NodeAt(l, n - 1) || NodeAt(r, n - 1)
  }

  /** The depth is that of a deepest node: some node lies that deep and none deeper. */
  lemma {:induction false} DeepestNode<K>(t: Tree<K>)
    ensures t.Node? ==> NodeAt(t, MaxDepth(t))
    ensures forall n: nat :: NodeAt(t, n) ==> n <= MaxDepth(t)
  {
    match t
    case Nil =>
    case Node(l, _, r) =>
      DeepestNode(l);
      DeepestNode(r);
      forall n: nat | NodeAt(t, n) ensures n <= MaxDepth(t) {
        if n > 0 {
          assert NodeAt(l, n - 1) || NodeAt(r, n - 1);
        }
      }
  }

  /** `2^n`. */
  function Pow2(n: nat): (p: nat)
    ensures p >= 1
  {
    if n == 0 then 1 else 2 * Pow2(n - 1)
  }

  /** A tree of depth `d` has fewer than `2^(d+1)` nodes. */
  lemma {:induction false} SizeBound<K>(t: Tree<K>)
    ensures Size(t) < Pow2(MaxDepth(t) + 1)
  {
    match t
    case Nil =>
    case Node(l, _, r) =>
      var d := MaxDepth(t);
      assert Size(l) < Pow2(d) by {
        SizeBound(l);
        PowMonotone(MaxDepth(l) + 1, d);
      }
      assert Size(r) < Pow2(d) by {
        SizeBound(r);
        PowMonotone(MaxDepth(r) + 1, d);
      }
      assert Size(t) == Size(l) + 1 + Size(r);
      assert Pow2(d + 1) == 2 * Pow2(d);
  }

  /** `2^m <= 2^n` when `m <= n`. */
  lemma {:induction false} PowMonotone(m: nat, n: nat)
    requires m <= n
    ensures Pow2(m) <= Pow2(n)
    decreases n
  {
    if m < n {
      PowMonotone(m, n - 1);
    }
  }
}
