/**
 * The binary trees the tree exercises walk: a node holds a key and a left
 * and a right child, either of which may be missing (`None`). The tree
 * classes that build them are not part of this model; the walks only read
 * `key`, `left` and `right`.
 */
module BinaryTrees {
  datatype Tree<K> = Nil | Node(left: Tree<K>, key: K, right: Tree<K>)

  /** The keys held by the nodes of `t`. */
  ghost function Keys<K>(t: Tree<K>): set<K> {
    match t
    case Nil => {}
    case Node(l, k, r) => Keys(l) + {k} + Keys(r)
  }

  /** The number of nodes of `t`. */
  function Size<K>(t: Tree<K>): nat {
    match t
    case Nil => 0
    case Node(l, _, r) => Size(l) + 1 + Size(r)
  }
}
