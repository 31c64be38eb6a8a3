/**
 * The binary tree of the leetcode tree problems (`struct TreeNode` with
 * `val`, `left` and `right`), taken as a value: NULL is `Nil`.
 */
module BinaryTrees {
  datatype Tree = Nil | Node(val: int, left: Tree, right: Tree)

  /** The number of nodes. */
  function Size(t: Tree): (n: nat)
    ensures t.Node? ==> n >= 1
  {
    match t
    case Nil => 0
    case Node(_, l, r) => 1 + Size(l) + Size(r)
  }

  /** The number of levels: 0 for the empty tree. */
  function Height(t: Tree): (h: nat)
    ensures h <= Size(t)
    ensures t.Node? <==> h >= 1
  {
    match t
    case Nil => 0
    case Node(_, l, r) => 1 + if Height(l) >= Height(r) then Height(l) else Height(r)
  }

  /** The values in inorder: left subtree, node, right subtree. */
  function Inorder(t: Tree): (s: seq<int>)
    ensures |s| == Size(t)
  {
    match t
    case Nil => []
    case Node(v, l, r) => Inorder(l) + [v] + Inorder(r)
  }

  /** The values held by the nodes, with repetitions. */
  function Values(t: Tree): (m: multiset<int>)
    ensures |m| == Size(t)
  {
    match t
    case Nil => multiset{}
    case Node(v, l, r) => Values(l) + multiset{v} + Values(r)
  }

  /** A leaf. */
  function Leaf(v: int): (t: Tree)
    ensures t.Node? && Size(t) == 1
  {
    Node(v, Nil, Nil)
  }
}
