/** What the hash trees share: the position beside a node, and the pair of hashes a node is made of. */
module BinaryTree {

  function Sibling(index: nat): nat {
    if index % 2 == 0 then index + 1 else index - 1
  }

  datatype Pair<T> = Pair(left: T, right: T)

  /** Two different inputs of a two-to-one hash with one output. */
  ghost predicate Collision<T>(hash: (T, T) -> T, a: Pair<T>, b: Pair<T>) {
    a != b && hash(a.left, a.right) == hash(b.left, b.right)
  }
}
