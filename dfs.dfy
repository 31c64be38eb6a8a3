/**
 * Depth-first search over an adjacency matrix (leetcode/core/dfs.c). The
 * graph is a flat row-major matrix of `size * size` cells; cell
 * `u * size + v` equal to 1 is a directed edge from u to v. `visited` holds
 * one flag per node, 1 meaning visited. The node numbers the source prints
 * are returned as the sequence `printed`, in printing order.
 */
module Dfs {
  /** The row-major cell of an edge lies inside the matrix. */
  lemma CellIndex(u: int, v: int, size: int)
    requires 0 <= u < size && 0 <= v < size
    ensures 0 <= u * size + v < size * size
  {
    assert u * size <= (size - 1) * size;
  }

  /** A directed edge from u to v: the matrix cell `u * size + v` holds 1. */
  predicate Edge(graph: seq<int>, size: int, u: int, v: int)
  {
    0 <= u < size && 0 <= v < size && 0 <= u * size + v < |graph| && graph[u * size + v] == 1
  }

  /** A path: at least one node, all in range, consecutive nodes joined by edges. */
  predicate Path(graph: seq<int>, size: int, p: seq<int>)
  {
    && |p| >= 1
    && (forall k :: 0 <= k < |p| ==> 0 <= p[k] < size)
    && (forall k :: 0 <= k < |p| - 1 ==> Edge(graph, size, p[k], p[k + 1]))
  }

  /** `to` can be reached from `from` along edges (every node reaches itself). */
  ghost predicate Reachable(graph: seq<int>, size: int, from: int, to: int)
  {
    exists p :: Path(graph, size, p) && p[0] == from && p[|p| - 1] == to
  }

  lemma ReachSelf(graph: seq<int>, size: int, x: int)
    requires 0 <= x < size
    ensures Reachable(graph, size, x, x)
  {
    assert Path(graph, size, [x]);
  }

  /** An edge followed by a path is a path. */
  lemma ReachStep(graph: seq<int>, size: int, from: int, mid: int, to: int)
    requires Edge(graph, size, from, mid) && Reachable(graph, size, mid, to)
    ensures Reachable(graph, size, from, to)
  {
    var p :| Path(graph, size, p) && p[0] == mid && p[|p| - 1] == to;
    var q := [from] + p;
    assert forall k :: 1 <= k < |q| ==> q[k] == p[k - 1];
    assert Path(graph, size, q);
  }

  /** The visited flags of `after` grew from those of `before`: set flags stay set and only flags of nodes below `size` change, each to 1. */
  predicate Grown(before: seq<int>, after: seq<int>, size: int)
  {
    |after| == |before|
    && forall i :: 0 <= i < |before| ==>
         (before[i] == 1 ==> after[i] == 1) && (after[i] != before[i] ==> after[i] == 1 && i < size)
  }

  /** Node u was marked between `before` and `after`. */
  predicate Newly(before: seq<int>, after: seq<int>, u: int)
  {
    0 <= u < |before| && u < |after| && before[u] != 1 && after[u] == 1
  }

  /** No node is printed twice. */
  predicate Distinct(p: seq<int>)
  {
    forall a, b :: 0 <= a < b < |p| ==> p[a] != p[b]
  }

  /** `printed` lists each node marked between `before` and `after` once, and nothing else. */
  predicate Logged(before: seq<int>, after: seq<int>, printed: seq<int>, size: int)
  {
    && Distinct(printed)
    && (forall k :: 0 <= k < |printed| ==> 0 <= printed[k] < size && Newly(before, after, printed[k]))
    && (forall u :: 0 <= u < size && Newly(before, after, u) ==> u in printed)
  }

  /** Every successor of a node marked between `before` and `after`, except `skip`, is marked in `after`. */
  predicate ClosedExcept(graph: seq<int>, size: int, before: seq<int>, after: seq<int>, skip: int)
  {
    forall u, v :: 0 <= u < size && 0 <= v < size && Newly(before, after, u) && u != skip && Edge(graph, size, u, v) ==>
      v < |after| && after[v] == 1
  }

  /** Every successor of a node marked between `before` and `after` is marked in `after`. */
  predicate Closed(graph: seq<int>, size: int, before: seq<int>, after: seq<int>)
  {
    ClosedExcept(graph, size, before, after, -1)
  }

  /** Every node marked between `before` and `after` is reachable from `root`. */
  ghost predicate FromRoot(graph: seq<int>, size: int, before: seq<int>, after: seq<int>, root: int)
  {
    forall u :: Newly(before, after, u) ==> Reachable(graph, size, root, u)
  }

  /** The successors of `node` below `i` are marked in `v`. */
  predicate Covered(graph: seq<int>, size: int, node: int, v: seq<int>, i: int)
  {
    forall j :: 0 <= j < i && Edge(graph, size, node, j) ==> j < |v| && v[j] == 1
  }

  /** Marks survive growth, so once the successor `child` is marked the cover extends past it. */
  lemma CoverStep(graph: seq<int>, size: int, node: int, s1: seq<int>, s2: seq<int>, child: int)
    requires Covered(graph, size, node, s1, child) && Grown(s1, s2, size)
    requires 0 <= child < |s2| && s2[child] == 1
    ensures Covered(graph, size, node, s2, child + 1)
  {
  }

  /** The number of flags that are not 1. */
  function Unvisited(v: seq<int>): (n: nat)
    ensures n <= |v|
  {
    if v == [] then 0 else (if v[|v| - 1] != 1 then 1 else 0) + Unvisited(v[..|v| - 1])
  }

  /** Growing flags never adds unvisited nodes, and marking one removes at least one. */
  lemma {:induction false} GrownUnvisited(before: seq<int>, after: seq<int>, size: int, u: int)
    requires Grown(before, after, size)
    ensures Unvisited(after) <= Unvisited(before)
    ensures Newly(before, after, u) ==> Unvisited(after) < Unvisited(before)
  {
    if before != [] {
      var n := |before| - 1;
      assert Grown(before[..n], after[..n], size);
      GrownUnvisited(before[..n], after[..n], size, u);
    }
  }

  /**
   * The bookkeeping of one recursive call on `child`, a successor of `node`:
   * the state grew from s0 to s1 within this call and from s1 to s2 in the
   * callee; the callee's facts about s1 to s2 carry over to s0 to s2.
   */
  lemma ComposeCall(graph: seq<int>, size: int, s0: seq<int>, s1: seq<int>, s2: seq<int>,
                    node: int, child: int, printed: seq<int>, more: seq<int>)
    requires Edge(graph, size, node, child)
    requires Grown(s0, s1, size) && Grown(s1, s2, size)
    requires Logged(s0, s1, printed, size) && Logged(s1, s2, more, size)
    requires ClosedExcept(graph, size, s0, s1, node) && Closed(graph, size, s1, s2)
    requires FromRoot(graph, size, s0, s1, node) && FromRoot(graph, size, s1, s2, child)
    ensures Grown(s0, s2, size) && Unvisited(s2) <= Unvisited(s1)
    ensures Logged(s0, s2, printed + more, size)
    ensures ClosedExcept(graph, size, s0, s2, node)
    ensures FromRoot(graph, size, s0, s2, node)
  {
    GrownUnvisited(s1, s2, size, 0);
    var all := printed + more;
    forall a, b | 0 <= a < b < |all|
      ensures all[a] != all[b]
    {
      if b >= |printed| && a < |printed| {
        assert Newly(s0, s1, all[a]) && Newly(s1, s2, all[b]);
      }
    }
    forall u | 0 <= u < size && Newly(s0, s2, u)
      ensures u in all
    {
      if s1[u] == 1 {
        assert Newly(s0, s1, u) && u in printed;
      } else {
        assert Newly(s1, s2, u) && u in more;
      }
    }
    forall u | Newly(s0, s2, u)
      ensures Reachable(graph, size, node, u)
    {
      if s1[u] != 1 {
        assert Newly(s1, s2, u);
        ReachStep(graph, size, node, child, u);
      } else {
        assert Newly(s0, s1, u);
      }
    }
    forall u, v | 0 <= u < size && 0 <= v < size && Newly(s0, s2, u) && u != node && Edge(graph, size, u, v)
      ensures v < |s2| && s2[v] == 1
    {
      if s1[u] == 1 {
        assert Newly(s0, s1, u);
      } else {
        assert Newly(s1, s2, u);
      }
    }
  }

  /**
   * dfs_recursive: nothing happens on a node already visited; otherwise the
   * node is printed and marked, then each successor in increasing order is
   * visited recursively. The nodes it marks are printed once each, are all
   * reachable from `node`, and the successors of every node it marks end up
   * marked.
   */
  method DfsRecursive(graph: seq<int>, size: nat, node: nat, visited: array<int>) returns (printed: seq<int>)
    requires |graph| == size * size && node < size <= visited.Length
    modifies visited
    decreases Unvisited(visited[..]), 1
    ensures Grown(old(visited[..]), visited[..], size) && visited[node] == 1
    ensures old(visited[node]) == 1 ==> visited[..] == old(visited[..]) && printed == []
    ensures old(visited[node]) != 1 ==> |printed| >= 1 && printed[0] == node
    ensures Logged(old(visited[..]), visited[..], printed, size)
    ensures Closed(graph, size, old(visited[..]), visited[..])
    ensures FromRoot(graph, size, old(visited[..]), visited[..], node)
  {
    if visited[node] == 1 {
      return [];
    }
    ghost var s0 := visited[..];
    visited[node] := 1;
    ReachSelf(graph, size, node);
    GrownUnvisited(s0, visited[..], size, node);
    printed := VisitSuccessors(graph, size, node, visited, s0, [node]);
  }

  /**
   * The loop of dfs_recursive after `node` is printed and marked: each
   * successor, in increasing order, is visited recursively and what it
   * prints is appended. `s0` is the flags before `node` was marked.
   */
  method VisitSuccessors(graph: seq<int>, size: nat, node: nat, visited: array<int>, ghost s0: seq<int>, printed0: seq<int>)
      returns (printed: seq<int>)
    requires |graph| == size * size && node < size <= visited.Length
    requires Grown(s0, visited[..], size) && visited[node] == 1 && Unvisited(visited[..]) < Unvisited(s0)
    requires |printed0| >= 1 && printed0[0] == node && Logged(s0, visited[..], printed0, size)
    requires ClosedExcept(graph, size, s0, visited[..], node) && FromRoot(graph, size, s0, visited[..], node)
    modifies visited
    decreases Unvisited(s0), 0
    ensures Grown(s0, visited[..], size) && visited[node] == 1
    ensures |printed| >= 1 && printed[0] == node && Logged(s0, visited[..], printed, size)
    ensures Closed(graph, size, s0, visited[..]) && FromRoot(graph, size, s0, visited[..], node)
  {
    printed := printed0;
    var i := 0;
    while i < size
      invariant 0 <= i <= size
      invariant Grown(s0, visited[..], size) && visited[node] == 1
      invariant Unvisited(visited[..]) < Unvisited(s0)
      invariant Covered(graph, size, node, visited[..], i)
      invariant |printed| >= 1 && printed[0] == node && Logged(s0, visited[..], printed, size)
      invariant ClosedExcept(graph, size, s0, visited[..], node)
      invariant FromRoot(graph, size, s0, visited[..], node)
    {
      CellIndex(node, i, size);
      if graph[node * size + i] == 1 {
        ghost var s1 := visited[..];
        var more := DfsRecursive(graph, size, i, visited);
        ComposeCall(graph, size, s0, s1, visited[..], node, i, printed, more);
        CoverStep(graph, size, node, s1, visited[..], i);
        printed := printed + more;
      } else {
        assert !Edge(graph, size, node, i);
      }
      i := i + 1;
    }
  }

  /**
   * Starting from no visited node, the nodes dfs_recursive marks are exactly
   * those reachable from where it started.
   */
  lemma {:induction false} MarksExactlyReachable(graph: seq<int>, size: int, before: seq<int>, after: seq<int>, root: int)
    requires size <= |before| && Grown(before, after, size) && 0 <= root < size && after[root] == 1
    requires forall i :: 0 <= i < size ==> before[i] == 0
    requires Closed(graph, size, before, after) && FromRoot(graph, size, before, after, root)
    ensures forall x :: 0 <= x < size ==> (after[x] == 1 <==> Reachable(graph, size, root, x))
  {
    forall x | 0 <= x < size && Reachable(graph, size, root, x)
      ensures after[x] == 1
    {
      var p :| Path(graph, size, p) && p[0] == root && p[|p| - 1] == x;
      PathMarked(graph, size, before, after, p, |p| - 1);
    }
    forall x | 0 <= x < size && after[x] == 1
      ensures Reachable(graph, size, root, x)
    {
      assert Newly(before, after, x);
    }
  }

  /** Along a path from a marked node through a closed marking, every node is marked. */
  lemma {:induction false} PathMarked(graph: seq<int>, size: int, before: seq<int>, after: seq<int>, p: seq<int>, k: int)
    requires size <= |before| && Grown(before, after, size) && Path(graph, size, p) && after[p[0]] == 1
    requires forall i :: 0 <= i < size ==> before[i] == 0
    requires Closed(graph, size, before, after)
    requires 0 <= k < |p|
    ensures after[p[k]] == 1
  {
    if k > 0 {
      PathMarked(graph, size, before, after, p, k - 1);
      assert Newly(before, after, p[k - 1]) && Edge(graph, size, p[k - 1], p[k]);
    }
  }

  /**
   * dfs: dfs_recursive from every node in turn. Afterwards every node is
   * visited, and the nodes that were not visited before are each printed
   * exactly once.
   */
  method Dfs(graph: seq<int>, size: nat, visited: array<int>) returns (printed: seq<int>)
    requires |graph| == size * size && size <= visited.Length
    modifies visited
    ensures Grown(old(visited[..]), visited[..], size)
    ensures forall i :: 0 <= i < size ==> visited[i] == 1
    ensures Logged(old(visited[..]), visited[..], printed, size)
  {
    ghost var s0 := visited[..];
    printed := [];
    var i := 0;
    while i < size
      invariant 0 <= i <= size
      invariant Grown(s0, visited[..], size) && Logged(s0, visited[..], printed, size)
      invariant forall j :: 0 <= j < i ==> visited[j] == 1
    {
      ghost var s1 := visited[..];
      var more := DfsRecursive(graph, size, i, visited);
      AppendLog(s0, s1, visited[..], size, printed, more);
      printed := printed + more;
      i := i + 1;
    }
  }

  /** Two logged stretches of growth make one. */
  lemma AppendLog(s0: seq<int>, s1: seq<int>, s2: seq<int>, size: int, printed: seq<int>, more: seq<int>)
    requires Grown(s0, s1, size) && Grown(s1, s2, size)
    requires Logged(s0, s1, printed, size) && Logged(s1, s2, more, size)
    ensures Grown(s0, s2, size) && Logged(s0, s2, printed + more, size)
  {
    var all := printed + more;
    forall a, b | 0 <= a < b < |all|
      ensures all[a] != all[b]
    {
      if b >= |printed| && a < |printed| {
        assert Newly(s0, s1, all[a]) && Newly(s1, s2, all[b]);
      }
    }
    forall u | 0 <= u < size && Newly(s0, s2, u)
      ensures u in all
    {
      if s1[u] == 1 {
        assert Newly(s0, s1, u) && u in printed;
      } else {
        assert Newly(s1, s2, u) && u in more;
      }
    }
  }

  /** The first test's graph: one component, edges 0-1, 1-2, 2-3 and 2-4 (and back, except 0 to 2 one way). */
  const FirstTestGraph: seq<int> :=
    [0, 1, 0, 0, 0,
     1, 0, 1, 0, 0,
     1, 1, 0, 1, 1,
     0, 0, 1, 0, 0,
     0, 0, 1, 0, 0]

  /** The second test's graph: the components {0, 1, 2} and {3, 4}. */
  const SecondTestGraph: seq<int> :=
    [0, 1, 0, 0, 0,
     1, 0, 1, 0, 0,
     1, 1, 0, 0, 0,
     0, 0, 0, 0, 1,
     0, 0, 0, 1, 0]

  /** In the first test every node is reachable from node 0. */
  lemma FirstTestAllReachable()
    ensures forall x :: 0 <= x < 5 ==> Reachable(FirstTestGraph, 5, 0, x)
  {
    var g := FirstTestGraph;
    assert g[1] == 1 && g[7] == 1 && g[13] == 1 && g[14] == 1;
    assert Edge(g, 5, 0, 1) && Edge(g, 5, 1, 2) && Edge(g, 5, 2, 3) && Edge(g, 5, 2, 4);
    ReachSelf(g, 5, 3);
    ReachStep(g, 5, 2, 3, 3);
    ReachSelf(g, 5, 4);
    ReachStep(g, 5, 2, 4, 4);
    ReachSelf(g, 5, 2);
    ReachStep(g, 5, 1, 2, 2);
    ReachStep(g, 5, 1, 2, 3);
    ReachStep(g, 5, 1, 2, 4);
    ReachSelf(g, 5, 1);
    ReachStep(g, 5, 0, 1, 1);
    ReachStep(g, 5, 0, 1, 2);
    ReachStep(g, 5, 0, 1, 3);
    ReachStep(g, 5, 0, 1, 4);
    ReachSelf(g, 5, 0);
  }

  /** In the second test no edge leaves {0, 1, 2}: marking those three from nothing is closed. */
  lemma SecondTestClosed()
    ensures Closed(SecondTestGraph, 5, [0, 0, 0, 0, 0], [1, 1, 1, 0, 0])
  {
    var g, before, after := SecondTestGraph, [0, 0, 0, 0, 0], [1, 1, 1, 0, 0];
    forall u, v | 0 <= u < 5 && 0 <= v < 5 && Newly(before, after, u) && u != -1 && Edge(g, 5, u, v)
      ensures v < |after| && after[v] == 1
    {
      assert u < 3;
    }
  }

  /**
   * In the second test node 0 reaches 1 and 2 but not 3 or 4: marking
   * {0, 1, 2} from nothing is closed and reachable from 0, so by
   * MarksExactlyReachable it is exactly the reachable set.
   */
  lemma SecondTestComponents()
    ensures Reachable(SecondTestGraph, 5, 0, 2)
    ensures !Reachable(SecondTestGraph, 5, 0, 3) && !Reachable(SecondTestGraph, 5, 0, 4)
  {
    var g := SecondTestGraph;
    var before, after := [0, 0, 0, 0, 0], [1, 1, 1, 0, 0];
    assert g[1] == 1 && g[7] == 1;
    assert Edge(g, 5, 0, 1) && Edge(g, 5, 1, 2);
    ReachSelf(g, 5, 2);
    ReachSelf(g, 5, 1);
    ReachStep(g, 5, 1, 2, 2);
    ReachSelf(g, 5, 0);
    ReachStep(g, 5, 0, 1, 1);
    ReachStep(g, 5, 0, 1, 2);
    SecondTestClosed();
    assert FromRoot(g, 5, before, after, 0);
    MarksExactlyReachable(g, 5, before, after, 0);
  }
}
