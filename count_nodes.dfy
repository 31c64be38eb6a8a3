/** Count complete tree nodes (leetcode/problems/222.c): a traversal counting through a pointer. */
module CountNodes {
  import opened BinaryTrees

  /** inorder_traversal: adds one to the running count per node, so the count grows by the tree's size. */
  method CountInto(root: Tree, count: int) returns (count': int)
    ensures count' == count + Size(root)
    decreases root
  {
    if root == Nil {
      return count;
    }
    count' := CountInto(root.left, count);
    count' := count' + 1;
    count' := CountInto(root.right, count');
  }

  /** countNodes: the number of nodes, 0 for the empty tree. */
  method Count(root: Tree) returns (count: int)
    ensures count == Size(root)
  {
    count := CountInto(root, 0);
  }

  /** The source's tests: a six-node tree has 6 nodes, the empty tree 0 and a lone node 1. */
  lemma KnownCounts()
    ensures Size(Node(1, Node(2, Leaf(4), Leaf(5)), Node(3, Leaf(6), Nil))) == 6
    ensures Size(Nil) == 0 && Size(Leaf(1)) == 1
  {
  }
}
