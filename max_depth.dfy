/**
 * Maximum depth of a binary tree by breadth-first search over a fixed
 * array queue (leetcode/problems/104.c). The source overwrites each
 * dequeued child's `val` with its depth before queueing it; here the queue
 * holds the child relabelled with that depth, and the answer is the label
 * of the last node queued.
 */
module MaxDepth {
  import opened BinaryTrees

  /** The capacity of the source's static queue. */
  const QueueCapacity := 10000

  function Max(a: int, b: int): (m: int)
    ensures m >= a && m >= b && (m == a || m == b)
  {
    if a >= b then a else b
  }

  /** The subtree `t` with its root relabelled by `depth`, as the source writes `val`. */
  function Labelled(t: Tree, depth: int): (r: Tree)
    requires t.Node?
    ensures r.Node? && r.left == t.left && r.right == t.right && r.val == depth
    ensures Size(r) == Size(t) && Height(r) == Height(t)
  {
    t.(val := depth)
  }

  /** The children of a dequeued node, in the order the source queues them, labelled one deeper. */
  function Children(e: Tree): (kids: seq<Tree>)
    requires e.Node?
    ensures |kids| <= 2
    ensures forall i :: 0 <= i < |kids| ==> kids[i].Node? && kids[i].val == e.val + 1
    ensures kids == [] <==> e.left == Nil && e.right == Nil
  {
    (if e.left.Node? then [Labelled(e.left, e.val + 1)] else [])
    + (if e.right.Node? then [Labelled(e.right, e.val + 1)] else [])
  }

  /** The depth of the deepest node below a queued node whose label is its own depth. */
  function Reach(e: Tree): int
  {
    if e.Node? then e.val - 1 + Height(e) else 0
  }

  /** The largest Reach of the queued nodes (0 for an empty queue). */
  function MaxReach(s: seq<Tree>): (m: int)
    ensures m >= 0
  {
    if s == [] then 0 else Max(Reach(s[0]), MaxReach(s[1..]))
  }

  /** The number of nodes in the queued subtrees. */
  function SizeSum(s: seq<Tree>): nat
  {
    if s == [] then 0 else Size(s[0]) + SizeSum(s[1..])
  }

  lemma {:induction false} MaxReachConcat(s: seq<Tree>, t: seq<Tree>)
    ensures MaxReach(s + t) == Max(MaxReach(s), MaxReach(t))
  {
    if s == [] {
      assert s + t == t;
    } else {
      assert (s + t)[1..] == s[1..] + t;
      MaxReachConcat(s[1..], t);
    }
  }

  lemma {:induction false} SizeSumConcat(s: seq<Tree>, t: seq<Tree>)
    ensures SizeSum(s + t) == SizeSum(s) + SizeSum(t)
  {
    if s == [] {
      assert s + t == t;
    } else {
      assert (s + t)[1..] == s[1..] + t;
      SizeSumConcat(s[1..], t);
    }
  }

  /** A queue of non-empty subtrees holds at least one node per entry. */
  lemma {:induction false} SizeSumCounts(s: seq<Tree>)
    requires forall i :: 0 <= i < |s| ==> s[i].Node?
    ensures |s| <= SizeSum(s)
  {
    if s != [] {
      SizeSumCounts(s[1..]);
    }
  }

  /**
   * The breadth-first invariant, for a tree of height `height`, the queue
   * `s` and the label `deepest` of the last node queued: labels never
   * decrease along the queue, none exceeds `deepest`, `deepest` is at most
   * one more than the front's label, and the height is the larger of
   * `deepest` and the deepest node still below the queue.
   */
  predicate Frontier(height: int, s: seq<Tree>, deepest: int)
  {
    Labels(s, deepest) && height == Max(MaxReach(s), deepest)
  }

  /** The label part of Frontier. */
  predicate Labels(s: seq<Tree>, deepest: int)
  {
    && (forall i :: 0 <= i < |s| ==> s[i].Node? && 1 <= s[i].val <= deepest)
    && (forall i, j :: 0 <= i <= j < |s| ==> s[i].val <= s[j].val)
    && (s != [] ==> deepest <= s[0].val + 1)
    && deepest >= 1
  }

  /** The labels stay ordered and bounded when the front leaves and its children join at the back. */
  lemma DequeueKeepsLabels(s: seq<Tree>, deepest: int)
    requires s != [] && Labels(s, deepest)
    ensures var kids := Children(s[0]);
      Labels(s[1..] + kids, if kids == [] then deepest else s[0].val + 1)
  {
    var e, rest, kids := s[0], s[1..], Children(s[0]);
    var deepest' := if kids == [] then deepest else e.val + 1;
    var s' := rest + kids;
    assert forall k :: 0 <= k < |rest| ==> s'[k] == s[k + 1];
    assert forall k :: |rest| <= k < |s'| ==> s'[k] == kids[k - |rest|];
  }

  lemma Singleton(t: Tree)
    ensures MaxReach([t]) == Max(Reach(t), 0) && SizeSum([t]) == Size(t)
  {
    assert [t][1..] == [];
  }

  lemma Pair(a: Tree, b: Tree)
    ensures MaxReach([a, b]) == Max(Reach(a), Max(Reach(b), 0))
    ensures SizeSum([a, b]) == Size(a) + Size(b)
  {
    assert [a, b][1..] == [b];
    Singleton(b);
  }

  /** The children of a node reach as deep as the node and hold one node fewer than its subtree. */
  lemma ChildrenReach(e: Tree)
    requires e.Node? && e.val >= 1
    ensures var kids := Children(e);
      && (kids != [] ==> MaxReach(kids) == Reach(e) && Reach(e) >= e.val + 1)
      && (kids == [] ==> Reach(e) == e.val)
      && SizeSum(kids) + 1 == Size(e)
  {
    var kids := Children(e);
    var l, r := e.left, e.right;
    if l.Node? && r.Node? {
      var a, b := Labelled(l, e.val + 1), Labelled(r, e.val + 1);
      assert kids == [a, b];
      Pair(a, b);
      assert Height(e) == 1 + Max(Height(l), Height(r));
    } else if l.Node? {
      var a := Labelled(l, e.val + 1);
      assert kids == [a];
      Singleton(a);
      assert Height(e) == 1 + Height(l);
    } else if r.Node? {
      var b := Labelled(r, e.val + 1);
      assert kids == [b];
      Singleton(b);
      assert Height(e) == 1 + Height(r);
    } else {
      assert Height(e) == 1;
    }
  }

  /** Dequeuing the front and queueing its children keeps the invariant and removes exactly one node from the count. */
  lemma DequeueKeepsFrontier(height: int, s: seq<Tree>, deepest: int)
    requires s != [] && Frontier(height, s, deepest)
    ensures var kids := Children(s[0]);
      Frontier(height, s[1..] + kids, if kids == [] then deepest else s[0].val + 1)
      && SizeSum(s[1..] + kids) + 1 == SizeSum(s)
  {
    var e, rest, kids := s[0], s[1..], Children(s[0]);
    DequeueKeepsLabels(s, deepest);
    MaxReachConcat(rest, kids);
    SizeSumConcat(rest, kids);
    ChildrenReach(e);
    assert MaxReach(s) == Max(Reach(e), MaxReach(rest));
    assert SizeSum(s) == Size(e) + SizeSum(rest);
    assert e.val <= deepest <= e.val + 1;
  }

  /** queue[end++] = node: the new entry joins the back of the live part of the queue. */
  method Enqueue(queue: array<Tree>, begin: nat, end: nat, node: Tree)
    requires begin <= end < queue.Length
    modifies queue
    ensures queue[begin..end + 1] == old(queue[begin..end]) + [node]
  {
    queue[end] := node;
  }

  /**
   * The loop body after a dequeue: the node's non-empty children, labelled
   * one deeper, join the back of the queue, and the last one queued
   * becomes `last`.
   */
  method QueueChildren(queue: array<Tree>, begin: nat, end: nat, node: Tree, last: Tree)
      returns (end': nat, last': Tree)
    requires node.Node? && begin <= end && end + |Children(node)| <= queue.Length
    modifies queue
    ensures end' == end + |Children(node)|
    ensures queue[begin..end'] == old(queue[begin..end]) + Children(node)
    ensures last' == if Children(node) == [] then last else Children(node)[|Children(node)| - 1]
  {
    end', last' := end, last;
    if node.left != Nil {
      var child := Labelled(node.left, node.val + 1);
      Enqueue(queue, begin, end', child);
      end' := end' + 1;
      last' := child;
    }
    if node.right != Nil {
      var child := Labelled(node.right, node.val + 1);
      Enqueue(queue, begin, end', child);
      end' := end' + 1;
      last' := child;
    }
  }

  /**
   * The while loop of maxDepth: dequeue the front, queue its children, and
   * stop when the queue is empty; `last` then holds the deepest label.
   */
  method Drain(queue: array<Tree>, begin: nat, end: nat, last: Tree, ghost pending: seq<Tree>, ghost root: Tree)
      returns (depth: int, ghost queued: nat)
    requires begin <= end <= queue.Length == QueueCapacity && queue[begin..end] == pending
    requires last.Node? && Frontier(Height(root), pending, last.val)
    requires Size(root) == begin + SizeSum(pending) <= QueueCapacity
    modifies queue
    ensures depth == Height(root) && queued == Size(root)
  {
    var begin, end, last := begin, end, last;
    ghost var pending := pending;
    while end - begin > 0
      invariant 0 <= begin <= end <= QueueCapacity && queue[begin..end] == pending
      invariant last.Node? && Frontier(Height(root), pending, last.val)
      invariant Size(root) == begin + SizeSum(pending)
      decreases SizeSum(pending)
    {
      var node := queue[begin];
      assert node == pending[0];
      begin := begin + 1;
      assert queue[begin..end] == pending[1..];
      DequeueKeepsFrontier(Height(root), pending, last.val);
      SizeSumCounts(pending[1..] + Children(node));
      end, last := QueueChildren(queue, begin, end, node, last);
      pending := pending[1..] + Children(node);
    }
    return last.val, end;
  }

  /**
   * maxDepth: 0 for the empty tree, otherwise the number of levels; every
   * node passes through the queue once, so as many entries are queued as
   * the tree has nodes.
   */
  method MaxDepth(root: Tree) returns (depth: int, ghost queued: nat)
    requires Size(root) <= QueueCapacity
    ensures depth == Height(root)
    ensures queued == Size(root)
  {
    if root == Nil {
      return 0, 0;
    }
    var queue := new Tree[QueueCapacity](_ => Nil);
    var last := Labelled(root, 1);
    Enqueue(queue, 0, 0, last);
    assert SizeSum([last]) == Size(root) && MaxReach([last]) == Height(root) by {
      assert [last][1..] == [];
      assert SizeSum([]) == 0 && MaxReach([]) == 0;
      assert Reach(last) == Height(root);
    }
    assert queue[0..1] == [last];
    depth, queued := Drain(queue, 0, 1, last, [last], root);
  }

  /** The source's two tests: a tree with a two-node right subtree has depth 3, a root with one right child depth 2. */
  lemma KnownDepths()
    ensures Height(Node(3, Leaf(9), Node(20, Leaf(15), Leaf(7)))) == 3
    ensures Height(Node(1, Nil, Leaf(2))) == 2
  {
  }
}
