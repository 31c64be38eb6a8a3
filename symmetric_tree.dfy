/** Symmetric tree (leetcode/problems/101.c): a tree that is its own mirror image. */
module SymmetricTree {
  import opened BinaryTrees

  /** The mirror image: every node's children swapped, all the way down. */
  function MirrorImage(t: Tree): (m: Tree)
    ensures Size(m) == Size(t)
  {
    match t
    case Nil => Nil
    case Node(v, l, r) => Node(v, MirrorImage(r), MirrorImage(l))
  }

  /** Mirroring twice gives the tree back. */
  lemma {:induction false} MirrorInvolution(t: Tree)
    ensures MirrorImage(MirrorImage(t)) == t
  {
    match t
    case Nil =>
    case Node(v, l, r) =>
      MirrorInvolution(l);
      MirrorInvolution(r);
  }

  /**
   * dfs: true when both trees are empty, or both have a root with the same
   * value, p's right mirroring q's left and p's left mirroring q's right —
   * exactly when p is the mirror image of q.
   */
  function IsMirror(p: Tree, q: Tree): (r: bool)
    ensures r <==> p == MirrorImage(q)
  {
    if p == Nil && q == Nil then true
    else if p == Nil || q == Nil then false
    else if p.val == q.val then
      if !IsMirror(p.right, q.left) then false
      else if !IsMirror(p.left, q.right) then false
      else true
    else false
  }

  /** The mirror test does not depend on the order of its arguments. */
  lemma MirrorSymmetric(p: Tree, q: Tree)
    ensures IsMirror(p, q) == IsMirror(q, p)
  {
    MirrorInvolution(p);
    MirrorInvolution(q);
  }

  /**
   * isSymmetric: the root's left subtree mirrors its right one, which holds
   * exactly when the whole tree is its own mirror image. The source
   * dereferences the root, so it must be present.
   */
  function IsSymmetric(root: Tree): (r: bool)
    requires root.Node?
    ensures r <==> MirrorImage(root) == root
  {
    MirrorInvolution(root.right);
    IsMirror(root.left, root.right)
  }

  /** A lone root is symmetric. */
  lemma LoneRootSymmetric(v: int)
    ensures IsSymmetric(Leaf(v))
  {
  }

  /** The source's tests: the mirrored tree is symmetric; the one with both 3s on the right is not. */
  lemma KnownSymmetry()
    ensures IsSymmetric(Node(1, Node(2, Leaf(3), Leaf(4)), Node(2, Leaf(4), Leaf(3))))
    ensures !IsSymmetric(Node(1, Node(2, Nil, Leaf(3)), Node(2, Nil, Leaf(3))))
  {
  }
}
