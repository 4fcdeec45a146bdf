/** Whether an undirected graph is a tree, decided with union-find. */
module ValidTree {
  import opened DisjointForest

  class UnionFind {
    var root: seq<int>
    ghost var rank: seq<int>
    ghost var pairs: set<(int, int)>      // the pairs united so far

    ghost predicate Valid()
      reads this
    {
      Represents(root, rank, pairs) && forall i :: 0 <= i < |root| ==> root[i] != -1
    }

    constructor (size: nat)
      ensures Valid() && |root| == size && pairs == {}
      ensures Roots(root) == Nodes(root)
    {
      root := seq(size, i => i);
      rank := seq(size, i => 0);
      pairs := {};
      new;
      Singletons(root, rank);
    }

    /** True exactly when x and y were not yet linked; each such call merges two trees into one. */
    method Union(x: int, y: int) returns (merged: bool)
      requires Valid() && 0 <= x < |root| && 0 <= y < |root|
      modifies this
      ensures Valid() && |root| == |old(root)| && pairs == old(pairs) + {(x, y)}
      ensures merged == !Linked(old(pairs), x, y)
      ensures |Roots(root)| == |Roots(old(root))| - if merged then 1 else 0
    {
      var rx := FindRoot(root, rank, x);
      var ry := FindRoot(root, rank, y);
      SameRootIffLinked(root, rank, pairs, x, y);
      if rx == ry {
        AddLinked(root, rank, pairs, x, y);
        pairs := pairs + {(x, y)};
        return false;
      }
      ghost var rank' := Raise(rank, rx, ry);
      LinkForest(root, rank, rx, ry, rank');
      LinkRepresents(root, rank, pairs, x, y, rx, ry, rank');
      assert ry in Roots(root);
      root, rank, pairs := root[ry := rx], rank', pairs + {(x, y)};
      return true;
    }
  }

  ghost function EdgeSet(edges: seq<(int, int)>): set<(int, int)> { set e | e in edges }

  ghost predicate Connects(n: int, pairs: set<(int, int)>) {
    forall x, y :: 0 <= x < n && 0 <= y < n ==> Linked(pairs, x, y)
  }

  /** No edge joins two vertices already linked by the edges before it. */
  ghost predicate Acyclic(edges: seq<(int, int)>) {
    forall k: nat :: k < |edges| ==> !ClosesCycle(edges, k)
  }

  ghost predicate ClosesCycle(edges: seq<(int, int)>, k: nat)
    requires k < |edges|
  {
    Linked(EdgeSet(edges[..k]), edges[k].0, edges[k].1)
  }

  ghost predicate InRange(n: int, edges: seq<(int, int)>) {
    forall e :: e in edges ==> 0 <= e.0 < n && 0 <= e.1 < n
  }

  /** Whatever edges are still to come, each can merge at most one pair of trees. */
  lemma {:induction false} AddEdges(root: seq<int>, rank: seq<int>, pairs: set<(int, int)>, more: seq<(int, int)>)
      returns (root': seq<int>, rank': seq<int>)
    requires Represents(root, rank, pairs) && InRange(|root|, more)
    requires forall i :: 0 <= i < |root| ==> root[i] != -1
    ensures Represents(root', rank', pairs + EdgeSet(more)) && |root'| == |root|
    ensures |Roots(root')| >= |Roots(root)| - |more|
    decreases |more|
  {
    if more == [] {
      assert pairs + EdgeSet(more) == pairs;
      root', rank' := root, rank;
    } else {
      var (x, y) := more[0];
      assert more[0] in more;
      assert pairs + EdgeSet(more) == (pairs + {(x, y)}) + EdgeSet(more[1..]);
      var rx, ry := Find(root, rank, x), Find(root, rank, y);
      if rx == ry {
        AddLinked(root, rank, pairs, x, y);
        root', rank' := AddEdges(root, rank, pairs + {(x, y)}, more[1..]);
      } else {
        var up := Raise(rank, rx, ry);
        LinkForest(root, rank, rx, ry, up);
        LinkRepresents(root, rank, pairs, x, y, rx, ry, up);
        assert ry in Roots(root);
        root', rank' := AddEdges(root[ry := rx], up, pairs + {(x, y)}, more[1..]);
      }
    }
  }

  /** Two trees mean some two vertices are not linked. */
  lemma TwoRoots(root: seq<int>, rank: seq<int>, pairs: set<(int, int)>)
    requires Represents(root, rank, pairs) && |Roots(root)| >= 2
    ensures !Connects(|root|, pairs)
  {
    var a :| a in Roots(root);
    assert Roots(root) != {a};
    var b :| b in Roots(root) && b != a;
    SameRootIffLinked(root, rank, pairs, a, b);
  }

  /** One tree means all vertices are linked. */
  lemma OneRoot(root: seq<int>, rank: seq<int>, pairs: set<(int, int)>)
    requires Represents(root, rank, pairs) && |Roots(root)| == 1
    requires forall i :: 0 <= i < |root| ==> root[i] != -1
    ensures Connects(|root|, pairs)
  {
    var r :| r in Roots(root);
    assert |Roots(root) - {r}| == 0;
    forall x, y | 0 <= x < |root| && 0 <= y < |root| ensures Linked(pairs, x, y) {
      assert Find(root, rank, x) in Roots(root) - {r} + {r};
      assert Find(root, rank, y) in Roots(root) - {r} + {r};
      SameRootIffLinked(root, rank, pairs, x, y);
    }
  }

  lemma NextEdge(edges: seq<(int, int)>, k: nat)
    requires k < |edges|
    ensures edges[k] in edges && EdgeSet(edges[..k + 1]) == EdgeSet(edges[..k]) + {(edges[k].0, edges[k].1)}
  {
  }

  /** An edge that merged nothing: the edges left are too few to join the trees there are. */
  lemma CycleLeavesTwoTrees(root: seq<int>, rank: seq<int>, edges: seq<(int, int)>, k: nat)
    requires k < |edges| == |root| - 1 && InRange(|root|, edges)
    requires Represents(root, rank, EdgeSet(edges[..k + 1])) && |Roots(root)| == |root| - k
    requires forall i :: 0 <= i < |root| ==> root[i] != -1
    ensures !Connects(|root|, EdgeSet(edges))
  {
    assert InRange(|root|, edges[k + 1..]);
    var root', rank' := AddEdges(root, rank, EdgeSet(edges[..k + 1]), edges[k + 1..]);
    assert edges == edges[..k + 1] + edges[k + 1..];
    assert EdgeSet(edges) == EdgeSet(edges[..k + 1]) + EdgeSet(edges[k + 1..]);
    TwoRoots(root', rank', EdgeSet(edges));
  }

  /** Exactly: n - 1 edges, joining all vertices, which is to say n - 1 edges without a cycle. */
  method IsTree(n: int, edges: seq<(int, int)>) returns (tree: bool)
    requires InRange(n, edges)
    ensures tree <==> |edges| == n - 1 && Connects(n, EdgeSet(edges))
    ensures tree <==> |edges| == n - 1 && Acyclic(edges)
  {
    if |edges| != n - 1 {
      return false;
    }
    var uf := new UnionFind(n);
    assert Nodes(uf.root) == Upto(n);
    for k := 0 to |edges|
      invariant uf.Valid() && |uf.root| == n && fresh(uf)
      invariant uf.pairs == EdgeSet(edges[..k]) && |Roots(uf.root)| == n - k
      invariant forall j: nat :: j < k ==> !ClosesCycle(edges, j)
    {
      NextEdge(edges, k);
      var merged := uf.Union(edges[k].0, edges[k].1);
      assert merged <==> !ClosesCycle(edges, k);
      if !merged {
        CycleLeavesTwoTrees(uf.root, uf.rank, edges, k);
        return false;
      }
    }
    assert edges[..|edges|] == edges;
    OneRoot(uf.root, uf.rank, uf.pairs);
    return true;
  }
}
