/**
 * Binary tree inorder traversal (leetcode/problems/94.c): a recursive walk
 * writing the values into a caller's array through a running size.
 */
module InorderTraversal {
  import opened BinaryTrees

  /**
   * inorder_traversal: writes the inorder values of `root` into `result`
   * from index `returnSize` on and returns the size advanced by one per
   * node; nothing else in `result` changes.
   */
  method InorderInto(root: Tree, result: array<int>, returnSize: int) returns (returnSize': int)
    requires 0 <= returnSize && returnSize + Size(root) <= result.Length
    modifies result
    ensures returnSize' == returnSize + Size(root)
    ensures forall i :: returnSize <= i < returnSize' ==> result[i] == Inorder(root)[i - returnSize]
    ensures forall i :: 0 <= i < result.Length && !(returnSize <= i < returnSize') ==> result[i] == old(result[i])
    decreases root
  {
    if root == Nil {
      return returnSize;
    }
    var size := InorderInto(root.left, result, returnSize);
    result[size] := root.val;
    size := size + 1;
    returnSize' := InorderInto(root.right, result, size);
    forall i | returnSize <= i < returnSize'
      ensures result[i] == Inorder(root)[i - returnSize]
    {
      var s := Inorder(root.left) + [root.val] + Inorder(root.right);
      assert Inorder(root) == s;
      if i < size - 1 {
        assert s[i - returnSize] == Inorder(root.left)[i - returnSize];
      } else if i >= size {
        assert s[i - returnSize] == Inorder(root.right)[i - size];
      }
    }
  }

  /**
   * inorderTraversal: traverses into a 100-entry buffer and returns a copy
   * of the entries written. The running size starts at 0, as the callers
   * set it.
   */
  method Traverse(root: Tree) returns (result: array<int>, returnSize: int)
    requires Size(root) <= 100
    ensures returnSize == Size(root) && result.Length == returnSize
    ensures result[..] == Inorder(root)
  {
    var temp := new int[100];
    returnSize := InorderInto(root, temp, 0);
    result := new int[returnSize];
    forall i | 0 <= i < returnSize {
      result[i] := temp[i];
    }
  }

  /** The source's first, third and fourth tests: [1, 3, 2], the empty tree, and a lone node. */
  lemma KnownInorders()
    ensures Inorder(Node(1, Nil, Node(2, Leaf(3), Nil))) == [1, 3, 2]
    ensures Inorder(Nil) == [] && Inorder(Leaf(1)) == [1]
  {
    assert Inorder(Node(2, Leaf(3), Nil)) == [3, 2];
  }

  /** The source's second test: a nine-node tree read as [4, 2, 6, 5, 7, 1, 3, 9, 8]. */
  lemma KnownNineNodeInorder()
    ensures Inorder(Node(1, Node(2, Leaf(4), Node(5, Leaf(6), Leaf(7))), Node(3, Nil, Node(8, Leaf(9), Nil))))
      == [4, 2, 6, 5, 7, 1, 3, 9, 8]
  {
    var five := Node(5, Leaf(6), Leaf(7));
    assert Inorder(five) == [6, 5, 7];
    var two := Node(2, Leaf(4), five);
    assert Inorder(two) == [4, 2, 6, 5, 7];
    var eight := Node(8, Leaf(9), Nil);
    assert Inorder(eight) == [9, 8];
    var three := Node(3, Nil, eight);
    assert Inorder(three) == [3, 9, 8];
    assert Inorder(Node(1, two, three)) == Inorder(two) + [1] + Inorder(three);
  }
}
