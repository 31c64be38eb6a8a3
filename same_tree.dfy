/**
 * Same tree (leetcode/problems/100.c): a structural comparison, and the
 * insertion the tests build their trees with.
 */
module SameTree {
  import opened BinaryTrees

  /**
   * insert: a new leaf for the empty tree; otherwise values at least the
   * node's go left and smaller ones go right, and the root stays. The
   * source links the new leaf in place; here the updated tree is returned.
   */
  function Insert(node: Tree, val: int): (r: Tree)
    ensures r.Node?
    ensures node.Node? ==> r.val == node.val
  {
    match node
    case Nil => Leaf(val)
    case Node(v, l, rt) =>
      if v <= val then Node(v, Insert(l, val), rt) else Node(v, l, Insert(rt, val))
  }

  /** Insertion adds exactly the one value and keeps all the others, so the tree grows by one node. */
  lemma {:induction false} InsertValues(t: Tree, val: int)
    ensures Values(Insert(t, val)) == Values(t) + multiset{val}
    ensures Size(Insert(t, val)) == Size(t) + 1
  {
    match t
    case Nil =>
    case Node(v, l, r) =>
      if v <= val {
        InsertValues(l, val);
      } else {
        InsertValues(r, val);
      }
  }

  /** Every value in `t` is at least `v`. */
  predicate AllAtLeast(t: Tree, v: int)
  {
    t.Node? ==> t.val >= v && AllAtLeast(t.left, v) && AllAtLeast(t.right, v)
  }

  /** Every value in `t` is below `v`. */
  predicate AllBelow(t: Tree, v: int)
  {
    t.Node? ==> t.val < v && AllBelow(t.left, v) && AllBelow(t.right, v)
  }

  /** Every value in a left subtree is at least its node's and every value in a right one smaller, throughout. */
  predicate Ordered(t: Tree)
  {
    t.Node? ==> AllAtLeast(t.left, t.val) && AllBelow(t.right, t.val) && Ordered(t.left) && Ordered(t.right)
  }

  /** Inserting a value keeps a bound that the value itself meets. */
  lemma {:induction false} InsertKeepsBounds(t: Tree, val: int, v: int)
    ensures AllAtLeast(t, v) && val >= v ==> AllAtLeast(Insert(t, val), v)
    ensures AllBelow(t, v) && val < v ==> AllBelow(Insert(t, val), v)
  {
    match t
    case Nil =>
    case Node(w, l, r) =>
      InsertKeepsBounds(l, val, v);
      InsertKeepsBounds(r, val, v);
  }

  /** Insertion keeps the tree ordered. */
  lemma {:induction false} InsertKeepsOrdered(t: Tree, val: int)
    requires Ordered(t)
    ensures Ordered(Insert(t, val))
  {
    match t
    case Nil =>
    case Node(v, l, r) =>
      if v <= val {
        InsertKeepsOrdered(l, val);
        InsertKeepsBounds(l, val, v);
      } else {
        InsertKeepsOrdered(r, val);
        InsertKeepsBounds(r, val, v);
      }
  }

  /** The tree the tests build: the values inserted one after another into the empty tree. */
  function Build(vals: seq<int>): (t: Tree)
    ensures Size(t) == |vals|
  {
    if vals == [] then Nil
    else
      InsertValues(Build(vals[..|vals| - 1]), vals[|vals| - 1]);
      Insert(Build(vals[..|vals| - 1]), vals[|vals| - 1])
  }

  /** Every tree built by insertion is ordered. */
  lemma {:induction false} BuildOrdered(vals: seq<int>)
    ensures Ordered(Build(vals))
  {
    if vals != [] {
      BuildOrdered(vals[..|vals| - 1]);
      InsertKeepsOrdered(Build(vals[..|vals| - 1]), vals[|vals| - 1]);
    }
  }

  /**
   * dfs and isSameTree: true when both trees are empty, or both have a root
   * with the same value and the same left and right subtrees — exactly
   * when the trees are equal.
   */
  function IsSameTree(p: Tree, q: Tree): (r: bool)
    ensures r <==> p == q
  {
    if p == Nil && q == Nil then true
    else if p == Nil || q == Nil then false
    else if p.val == q.val then
      if !IsSameTree(p.left, q.left) then false
      else if !IsSameTree(p.right, q.right) then false
      else true
    else false
  }

  /** The comparison is reflexive and symmetric. */
  lemma SameTreeReflexiveSymmetric(p: Tree, q: Tree)
    ensures IsSameTree(p, p)
    ensures IsSameTree(p, q) == IsSameTree(q, p)
  {
  }

  /** The source's first test: inserting 1, 2, 3 twice gives the same tree. */
  lemma KnownSameTrees()
    ensures IsSameTree(Insert(Insert(Leaf(1), 2), 3), Insert(Insert(Leaf(1), 2), 3))
  {
  }

  /** The source's second test: inserting 1, 2 and 1, 0, 2 give different trees. */
  lemma KnownDifferentTrees()
    ensures !IsSameTree(Insert(Leaf(1), 2), Insert(Insert(Leaf(1), 0), 2))
  {
    assert Insert(Leaf(1), 2).right == Nil;
    assert Insert(Insert(Leaf(1), 0), 2).right == Leaf(0);
  }

  /** The source's third test: inserting 1, 2, 1 and 1, 1, 2 give different trees. */
  lemma KnownDifferentOrders()
    ensures !IsSameTree(Insert(Insert(Leaf(1), 2), 1), Insert(Insert(Leaf(1), 1), 2))
  {
    assert Insert(Insert(Leaf(1), 2), 1).left.val == 2;
    assert Insert(Insert(Leaf(1), 1), 2).left.val == 1;
  }
}
