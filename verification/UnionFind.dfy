/** Union-find with path compression and union by rank. */
module UnionFind {
  import opened DisjointForest

  function Pow2(n: nat): nat { if n == 0 then 1 else 2 * Pow2(n - 1) }

  lemma {:induction false} Pow2Mono(m: nat, n: nat)
    requires m <= n
    ensures Pow2(m) <= Pow2(n)
    decreases n
  {
    if m < n { Pow2Mono(m, n - 1); }
  }

  /** A root of rank k heads a tree of at least 2^(k-1) nodes. */
  ghost predicate Heavy(root: seq<int>, rank: seq<int>, r: int)
    requires Forest(root, rank) && Node(root, r)
  {
    rank[r] >= 1 && Pow2(rank[r] - 1) <= |Tree(root, rank, r)|
  }

  ghost predicate Balanced(root: seq<int>, rank: seq<int>) {
    Forest(root, rank) &&
    (forall i :: 0 <= i < |root| ==> rank[i] >= 1 && root[i] != -1) &&
    forall r {:trigger Heavy(root, rank, r)} :: r in Roots(root) ==> Heavy(root, rank, r)
  }

  /** Every parent chain is logarithmic in the size of its set. */
  lemma ChainsAreShort(root: seq<int>, rank: seq<int>, x: int)
    requires Balanced(root, rank) && Node(root, x)
    ensures Pow2(Depth(root, rank, x)) <= |Tree(root, rank, Find(root, rank, x))| <= |root|
  {
    var r := Find(root, rank, x);
    DepthWithinRank(root, rank, x);
    Pow2Mono(Depth(root, rank, x), rank[r] - 1);
    assert r in Roots(root) && Heavy(root, rank, r);
    WithinRange(Tree(root, rank, r), |root|);
  }

  lemma CompressBalanced(root: seq<int>, rank: seq<int>, pairs: set<(int, int)>, x: int)
    requires Represents(root, rank, pairs) && Balanced(root, rank) && Node(root, x)
    ensures var root' := root[x := Find(root, rank, x)];
      Represents(root', rank, pairs) && Balanced(root', rank) &&
      forall y :: Node(root, y) ==> Find(root', rank, y) == Find(root, rank, y)
  {
    CompressForest(root, rank, x);
    var root' := root[x := Find(root, rank, x)];
    forall y | Node(root, y) ensures Find(root', rank, y) == Find(root, rank, y) {
      Compress(root, rank, x, y);
    }
    forall a, b | (a, b) in pairs ensures Joined(root', rank, a, b) {
      assert Joined(root, rank, a, b);
    }
    forall z | Node(root', z) ensures LinkedToRoot(root', rank, pairs, z) {
      assert LinkedToRoot(root, rank, pairs, z);
    }
    forall r | r in Roots(root') ensures Heavy(root', rank, r) {
      assert Tree(root', rank, r) == Tree(root, rank, r);
      assert Find(root', rank, r) == r && r in Roots(root);
      assert Heavy(root, rank, r);
    }
  }

  lemma LinkBalanced(root: seq<int>, rank: seq<int>, rx: int, ry: int, rank': seq<int>)
    requires Balanced(root, rank) && LinkStep(root, rank, rx, ry, rank')
    requires rank' == if rank[rx] == rank[ry] then rank[rx := rank[rx] + 1] else rank
    ensures Balanced(root[ry := rx], rank')
  {
    var root' := root[ry := rx];
    LinkForest(root, rank, rx, ry, rank');
    LinkTrees(root, rank, rx, ry, rank');
    assert rx in Roots(root) && ry in Roots(root);
    assert Heavy(root, rank, rx) && Heavy(root, rank, ry);
    if rank[rx] == rank[ry] {
      assert Pow2(rank[rx]) == 2 * Pow2(rank[rx] - 1);
    }
    assert Heavy(root', rank', rx);
    forall r | r in Roots(root') ensures Heavy(root', rank', r) {
      if r != rx {
        assert r in Roots(root) && r != ry;
        assert Heavy(root, rank, r);
        assert Tree(root', rank', r) == Tree(root, rank, r);
      }
    }
  }

  class UnionFindOpt {
    var root: seq<int>
    var rank: seq<int>
    ghost var pairs: set<(int, int)>      // the pairs united so far

    ghost predicate Valid()
      reads this
    {
      Represents(root, rank, pairs) && Balanced(root, rank)
    }

    constructor (size: nat)
      ensures Valid() && |root| == size && pairs == {}
    {
      root := seq(size, i => i);
      rank := seq(size, _ => 1);
      pairs := {};
      new;
      forall i | Node(root, i) ensures Rises(root, rank, i) {}
      forall i | Node(root, i) ensures LinkedToRoot(root, rank, pairs, i) {
        LinkedRefl(pairs, i);
      }
      forall r | r in Roots(root) ensures Heavy(root, rank, r) {
        assert r in Tree(root, rank, r);
        assert Pow2(rank[r] - 1) == 1;
      }
    }

    /** The root of x; x and everything above it now point straight at it, and no root moves. */
    method FindRoot(x: int) returns (r: int)
      requires Valid() && 0 <= x < |root|
      modifies this`root
      ensures Valid() && |root| == |old(root)|
      ensures r == Find(old(root), rank, x) && root[x] == r
      ensures forall y :: Node(old(root), y) ==> Node(root, y) && Find(root, rank, y) == Find(old(root), rank, y)
      decreases Above(rank, x)
    {
      if x == root[x] {
        return x;
      }
      Climb(root, rank, x);
      r := FindRoot(root[x]);
      assert r == Find(old(root), rank, x);
      CompressBalanced(root, rank, pairs, x);
      root := root[x := r];
    }

    method Union(x: int, y: int)
      requires Valid() && 0 <= x < |root| && 0 <= y < |root|
      modifies this
      ensures Valid() && |root| == |old(root)| && pairs == old(pairs) + {(x, y)}
    {
      var rx := FindRoot(x);
      var ry := FindRoot(y);
      assert rx == Find(root, rank, x) && ry == Find(root, rank, y);
      if rx != ry {
        var root0, rank0 := root, rank;
        if rank[rx] > rank[ry] {
          root := root[ry := rx];
          LinkRepresents(root0, rank0, pairs, x, y, rx, ry, rank);
          LinkBalanced(root0, rank0, rx, ry, rank);
        } else if rank[rx] < rank[ry] {
          root := root[rx := ry];
          LinkRepresents(root0, rank0, pairs, x, y, ry, rx, rank);
          LinkBalanced(root0, rank0, ry, rx, rank);
        } else {
          root := root[ry := rx];
          rank := rank[rx := rank[rx] + 1];
          LinkRepresents(root0, rank0, pairs, x, y, rx, ry, rank);
          LinkBalanced(root0, rank0, rx, ry, rank);
        }
      } else {
        AddLinked(root, rank, pairs, x, y);
      }
      pairs := pairs + {(x, y)};
    }

    /** Exactly the equivalence closure of the united pairs. */
    method Connected(x: int, y: int) returns (b: bool)
      requires Valid() && 0 <= x < |root| && 0 <= y < |root|
      modifies this`root
      ensures Valid() && |root| == |old(root)| && b == Linked(pairs, x, y)
    {
      var rx := FindRoot(x);
      var ry := FindRoot(y);
      SameRootIffLinked(root, rank, pairs, x, y);
      b := rx == ry;
    }
  }
}
