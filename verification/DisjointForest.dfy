/**
 Parent-pointer forests over 0..|root|, the common core of the union-find classes.
 A slot holding -1 is not a node. Ranks need only grow strictly towards the root.
 */
module DisjointForest {

  predicate Node(root: seq<int>, i: int) { 0 <= i < |root| && root[i] != -1 }

  ghost function Nodes(root: seq<int>): set<int> { set i | 0 <= i < |root| && root[i] != -1 }

  ghost function Roots(root: seq<int>): set<int> { set i | 0 <= i < |root| && root[i] == i }

  /** The parent of i is a node, ranked above i unless i is a root. */
  predicate Rises(root: seq<int>, rank: seq<int>, i: int)
    requires |rank| == |root| && Node(root, i)
  {
    Node(root, root[i]) && (root[i] != i ==> rank[i] < rank[root[i]])
  }

  ghost predicate Forest(root: seq<int>, rank: seq<int>) {
    |rank| == |root| &&
    forall i {:trigger Rises(root, rank, i)} :: Node(root, i) ==> Rises(root, rank, i)
  }

  /** Nodes ranked above x: the set that shrinks on the way to the root. */
  ghost function Above(rank: seq<int>, x: int): set<int>
    requires 0 <= x < |rank|
  {
    set j | 0 <= j < |rank| && rank[j] > rank[x]
  }

  lemma Climb(root: seq<int>, rank: seq<int>, x: int)
    requires Forest(root, rank) && Node(root, x) && root[x] != x
    ensures Rises(root, rank, x) && Above(rank, root[x]) < Above(rank, x)
  {
    assert Rises(root, rank, x);
    assert root[x] in Above(rank, x) && root[x] !in Above(rank, root[x]);
  }

  /** The root of x's tree. */
  ghost function Find(root: seq<int>, rank: seq<int>, x: int): (r: int)
    requires Forest(root, rank) && Node(root, x)
    ensures Node(root, r) && root[r] == r && rank[x] <= rank[r] && (x != r ==> rank[x] < rank[r])
    decreases Above(rank, x)
  {
    if root[x] == x then x else
      Climb(root, rank, x);
      Find(root, rank, root[x])
  }

  /** The number of links from x to its root. */
  ghost function Depth(root: seq<int>, rank: seq<int>, x: int): nat
    requires Forest(root, rank) && Node(root, x)
    decreases Above(rank, x)
  {
    if root[x] == x then 0 else
      Climb(root, rank, x);
      1 + Depth(root, rank, root[x])
  }

  lemma {:induction false} DepthWithinRank(root: seq<int>, rank: seq<int>, x: int)
    requires Forest(root, rank) && Node(root, x)
    ensures Depth(root, rank, x) + rank[x] <= rank[Find(root, rank, x)]
    decreases Above(rank, x)
  {
    if root[x] != x {
      Climb(root, rank, x);
      DepthWithinRank(root, rank, root[x]);
    }
  }

  lemma CompressForest(root: seq<int>, rank: seq<int>, x: int)
    requires Forest(root, rank) && Node(root, x)
    ensures Forest(root[x := Find(root, rank, x)], rank)
  {
    var root' := root[x := Find(root, rank, x)];
    forall i | Node(root', i) ensures Rises(root', rank, i) {
      assert Rises(root, rank, i);
    }
  }

  /** Path compression at x changes no root. */
  lemma {:induction false} Compress(root: seq<int>, rank: seq<int>, x: int, y: int)
    requires Forest(root, rank) && Node(root, x) && Node(root, y)
    ensures var root' := root[x := Find(root, rank, x)];
      Forest(root', rank) && Find(root', rank, y) == Find(root, rank, y)
    decreases Above(rank, y)
  {
    CompressForest(root, rank, x);
    if root[y] != y {
      Climb(root, rank, y);
      Compress(root, rank, x, root[y]);
    }
  }

  /** Hanging root ry under root rx, whose rank ends up above ry's, merges exactly their trees. */
  ghost predicate LinkStep(root: seq<int>, rank: seq<int>, rx: int, ry: int, rank': seq<int>) {
    Forest(root, rank) && |rank'| == |rank| && rx != ry &&
    Node(root, rx) && Node(root, ry) && root[rx] == rx && root[ry] == ry &&
    (forall i :: 0 <= i < |rank| && i != rx ==> rank'[i] == rank[i]) &&
    rank'[rx] >= rank[rx] && rank'[rx] > rank[ry]
  }

  lemma LinkForest(root: seq<int>, rank: seq<int>, rx: int, ry: int, rank': seq<int>)
    requires LinkStep(root, rank, rx, ry, rank')
    ensures Forest(root[ry := rx], rank')
    ensures Roots(root[ry := rx]) == Roots(root) - {ry}
    ensures Nodes(root[ry := rx]) == Nodes(root)
  {
    var root' := root[ry := rx];
    forall i | Node(root', i) ensures Rises(root', rank', i) {
      assert Rises(root, rank, i);
    }
  }

  lemma {:induction false} Link(root: seq<int>, rank: seq<int>, rx: int, ry: int, rank': seq<int>, z: int)
    requires LinkStep(root, rank, rx, ry, rank') && Node(root, z)
    ensures Forest(root[ry := rx], rank')
    ensures Find(root[ry := rx], rank', z)
         == if Find(root, rank, z) == ry then rx else Find(root, rank, z)
    decreases Above(rank, z)
  {
    LinkForest(root, rank, rx, ry, rank');
    var root' := root[ry := rx];
    if z == ry {
      assert Find(root', rank', rx) == rx;
    } else if root[z] != z {
      Climb(root, rank, z);
      Link(root, rank, rx, ry, rank', root[z]);
    }
  }

  // --- the equivalence closure of a set of pairs ------------------------------------------

  predicate Touch(pairs: set<(int, int)>, a: int, b: int) { (a, b) in pairs || (b, a) in pairs }

  ghost predicate Path(pairs: set<(int, int)>, p: seq<int>, x: int, y: int) {
    |p| > 0 && p[0] == x && p[|p| - 1] == y &&
    forall k :: 0 <= k < |p| - 1 ==> Touch(pairs, p[k], p[k + 1])
  }

  /** x and y are joined by a chain of pairs, each taken in either direction. */
  ghost predicate Linked(pairs: set<(int, int)>, x: int, y: int) {
    exists p :: Path(pairs, p, x, y)
  }

  lemma LinkedRefl(pairs: set<(int, int)>, x: int)
    ensures Linked(pairs, x, x)
  {
    assert Path(pairs, [x], x, x);
  }

  lemma LinkedTouch(pairs: set<(int, int)>, x: int, y: int)
    requires Touch(pairs, x, y)
    ensures Linked(pairs, x, y)
  {
    assert Path(pairs, [x, y], x, y);
  }

  lemma LinkedTrans(pairs: set<(int, int)>, x: int, y: int, z: int)
    requires Linked(pairs, x, y) && Linked(pairs, y, z)
    ensures Linked(pairs, x, z)
  {
    var p :| Path(pairs, p, x, y);
    var q :| Path(pairs, q, y, z);
    assert Path(pairs, p + q[1..], x, z);
  }

  lemma LinkedSym(pairs: set<(int, int)>, x: int, y: int)
    requires Linked(pairs, x, y)
    ensures Linked(pairs, y, x)
  {
    var p :| Path(pairs, p, x, y);
    var q := seq(|p|, i requires 0 <= i < |p| => p[|p| - 1 - i]);
    forall k | 0 <= k < |q| - 1 ensures Touch(pairs, q[k], q[k + 1]) {
      assert Touch(pairs, p[|p| - 2 - k], p[|p| - 2 - k + 1]);
    }
    assert Path(pairs, q, y, x);
  }

  lemma LinkedMono(pairs: set<(int, int)>, more: set<(int, int)>, x: int, y: int)
    requires Linked(pairs, x, y) && pairs <= more
    ensures Linked(more, x, y)
  {
    var p :| Path(pairs, p, x, y);
    assert Path(more, p, x, y);
  }

  // --- forests that represent a closure ---------------------------------------------------

  ghost predicate Joined(root: seq<int>, rank: seq<int>, a: int, b: int)
    requires Forest(root, rank)
  {
    Node(root, a) && Node(root, b) && Find(root, rank, a) == Find(root, rank, b)
  }

  ghost predicate LinkedToRoot(root: seq<int>, rank: seq<int>, pairs: set<(int, int)>, x: int)
    requires Forest(root, rank) && Node(root, x)
  {
    Linked(pairs, x, Find(root, rank, x))
  }

  ghost predicate Represents(root: seq<int>, rank: seq<int>, pairs: set<(int, int)>) {
    Forest(root, rank) &&
    (forall a, b :: (a, b) in pairs ==> Joined(root, rank, a, b)) &&
    (forall x {:trigger LinkedToRoot(root, rank, pairs, x)} :: Node(root, x) ==> LinkedToRoot(root, rank, pairs, x))
  }

  lemma PathTail(pairs: set<(int, int)>, p: seq<int>, x: int, y: int)
    requires Path(pairs, p, x, y) && |p| > 1
    ensures Touch(pairs, x, p[1]) && Path(pairs, p[1..], p[1], y)
  {
    assert Touch(pairs, p[0], p[0 + 1]);
    var q := p[1..];
    forall k | 0 <= k < |q| - 1 ensures Touch(pairs, q[k], q[k + 1]) {
      assert Touch(pairs, p[k + 1], p[k + 1 + 1]);
    }
  }

  lemma {:induction false} PathKeepsRoot(root: seq<int>, rank: seq<int>, pairs: set<(int, int)>, p: seq<int>,
                                         x: int, y: int)
    requires Represents(root, rank, pairs) && Node(root, x) && Path(pairs, p, x, y)
    ensures Joined(root, rank, x, y)
    decreases |p|
  {
    if |p| > 1 {
      PathTail(pairs, p, x, y);
      assert Joined(root, rank, x, p[1]) || Joined(root, rank, p[1], x);
      PathKeepsRoot(root, rank, pairs, p[1..], p[1], y);
    }
  }

  /** Two nodes share a root exactly when the pairs link them. */
  lemma SameRootIffLinked(root: seq<int>, rank: seq<int>, pairs: set<(int, int)>, x: int, y: int)
    requires Represents(root, rank, pairs) && Node(root, x) && Node(root, y)
    ensures Find(root, rank, x) == Find(root, rank, y) <==> Linked(pairs, x, y)
  {
    assert LinkedToRoot(root, rank, pairs, x) && LinkedToRoot(root, rank, pairs, y);
    if Find(root, rank, x) == Find(root, rank, y) {
      LinkedSym(pairs, y, Find(root, rank, y));
      LinkedTrans(pairs, x, Find(root, rank, x), y);
    }
    if Linked(pairs, x, y) {
      var p :| Path(pairs, p, x, y);
      PathKeepsRoot(root, rank, pairs, p, x, y);
    }
  }

  /** A pair already linked adds nothing. */
  lemma AddLinked(root: seq<int>, rank: seq<int>, pairs: set<(int, int)>, x: int, y: int)
    requires Represents(root, rank, pairs) && Joined(root, rank, x, y)
    ensures Represents(root, rank, pairs + {(x, y)})
  {
    var more := pairs + {(x, y)};
    forall a, b | (a, b) in more ensures Joined(root, rank, a, b) {
      assert (a, b) in pairs || (a, b) == (x, y);
    }
    forall z | Node(root, z) ensures LinkedToRoot(root, rank, more, z) {
      assert LinkedToRoot(root, rank, pairs, z);
      LinkedMono(pairs, more, z, Find(root, rank, z));
    }
  }

  lemma LinkJoins(root: seq<int>, rank: seq<int>, rx: int, ry: int, rank': seq<int>, a: int, b: int)
    requires LinkStep(root, rank, rx, ry, rank') && Node(root, a) && Node(root, b)
    requires Find(root, rank, a) == Find(root, rank, b) || {Find(root, rank, a), Find(root, rank, b)} == {rx, ry}
    ensures Forest(root[ry := rx], rank') && Joined(root[ry := rx], rank', a, b)
  {
    LinkForest(root, rank, rx, ry, rank');
    Link(root, rank, rx, ry, rank', a);
    Link(root, rank, rx, ry, rank', b);
    assert ry in {rx, ry};
  }

  /** Linking the roots of x and y, either way round, adds exactly the pair (x, y). */
  lemma LinkRepresents(root: seq<int>, rank: seq<int>, pairs: set<(int, int)>, x: int, y: int,
                       rx: int, ry: int, rank': seq<int>)
    requires Represents(root, rank, pairs) && Node(root, x) && Node(root, y)
    requires {rx, ry} == {Find(root, rank, x), Find(root, rank, y)}
    requires LinkStep(root, rank, rx, ry, rank')
    ensures Represents(root[ry := rx], rank', pairs + {(x, y)})
  {
    LinkForest(root, rank, rx, ry, rank');
    var root', more := root[ry := rx], pairs + {(x, y)};
    forall a, b | (a, b) in more ensures Joined(root', rank', a, b) {
      assert (a, b) in pairs || (a, b) == (x, y);
      LinkJoins(root, rank, rx, ry, rank', a, b);
    }
    forall z | Node(root', z) ensures LinkedToRoot(root', rank', more, z) {
      LinkLinks(root, rank, pairs, more, x, y, rx, ry, rank', z);
    }
  }

  lemma LinkLinks(root: seq<int>, rank: seq<int>, pairs: set<(int, int)>, more: set<(int, int)>, x: int, y: int,
                  rx: int, ry: int, rank': seq<int>, z: int)
    requires Represents(root, rank, pairs) && Node(root, x) && Node(root, y) && more == pairs + {(x, y)}
    requires {rx, ry} == {Find(root, rank, x), Find(root, rank, y)}
    requires LinkStep(root, rank, rx, ry, rank') && Node(root, z)
    ensures Forest(root[ry := rx], rank') && LinkedToRoot(root[ry := rx], rank', more, z)
  {
    LinkForest(root, rank, rx, ry, rank');
    Link(root, rank, rx, ry, rank', z);
    assert LinkedToRoot(root, rank, pairs, z);
    LinkedMono(pairs, more, z, Find(root, rank, z));
    if Find(root, rank, z) == ry {
      RootsLinked(root, rank, pairs, more, x, y);
      assert rx in {rx, ry} && ry in {rx, ry};
      LinkedTrans(more, z, ry, rx);
    }
  }

  lemma RootsLinked(root: seq<int>, rank: seq<int>, pairs: set<(int, int)>, more: set<(int, int)>, x: int, y: int)
    requires Represents(root, rank, pairs) && Node(root, x) && Node(root, y)
    requires more == pairs + {(x, y)}
    ensures Linked(more, Find(root, rank, x), Find(root, rank, y))
    ensures Linked(more, Find(root, rank, y), Find(root, rank, x))
  {
    var rx, ry := Find(root, rank, x), Find(root, rank, y);
    assert LinkedToRoot(root, rank, pairs, x) && LinkedToRoot(root, rank, pairs, y);
    LinkedMono(pairs, more, x, rx);
    LinkedMono(pairs, more, y, ry);
    LinkedSym(more, x, rx);
    LinkedTouch(more, x, y);
    LinkedTrans(more, rx, x, y);
    LinkedTrans(more, rx, y, ry);
    LinkedSym(more, rx, ry);
  }

  /** The integers 0..n. */
  ghost function Upto(n: nat): (s: set<int>)
    ensures |s| == n && forall i :: i in s <==> 0 <= i < n
  {
    if n == 0 then {} else Upto(n - 1) + {n - 1}
  }

  lemma WithinRange(s: set<int>, n: nat)
    requires forall i :: i in s ==> 0 <= i < n
    ensures |s| <= n
  {
    assert Upto(n) == s + (Upto(n) - s);
  }

  // --- trees and equivalence classes ------------------------------------------------------

  /** The nodes whose root is r. */
  ghost function Tree(root: seq<int>, rank: seq<int>, r: int): set<int>
    requires Forest(root, rank)
  {
    set i | 0 <= i < |root| && Node(root, i) && Find(root, rank, i) == r
  }

  lemma LinkTrees(root: seq<int>, rank: seq<int>, rx: int, ry: int, rank': seq<int>)
    requires LinkStep(root, rank, rx, ry, rank')
    ensures Forest(root[ry := rx], rank')
    ensures Tree(root[ry := rx], rank', rx) == Tree(root, rank, rx) + Tree(root, rank, ry)
    ensures |Tree(root[ry := rx], rank', rx)| == |Tree(root, rank, rx)| + |Tree(root, rank, ry)|
    ensures forall r :: r != rx && r != ry ==> Tree(root[ry := rx], rank', r) == Tree(root, rank, r)
  {
    LinkForest(root, rank, rx, ry, rank');
    forall z | 0 <= z < |root| && Node(root, z)
      ensures Find(root[ry := rx], rank', z) == if Find(root, rank, z) == ry then rx else Find(root, rank, z)
    {
      Link(root, rank, rx, ry, rank', z);
    }
    assert Tree(root, rank, rx) !! Tree(root, rank, ry);
  }

  ghost function Component(nodes: set<int>, pairs: set<(int, int)>, x: int): set<int> {
    set y | y in nodes && Linked(pairs, x, y)
  }

  /** The equivalence classes of the closure of pairs on nodes. */
  ghost function Components(nodes: set<int>, pairs: set<(int, int)>): set<set<int>> {
    set x | x in nodes :: Component(nodes, pairs, x)
  }

  ghost function Image<S, T>(xs: set<S>, f: S -> T): set<T> { set x | x in xs :: f(x) }

  lemma {:induction false} ImageSize<S, T>(xs: set<S>, f: S -> T)
    requires forall a, b :: a in xs && b in xs && f(a) == f(b) ==> a == b
    ensures |Image(xs, f)| == |xs|
  {
    if xs != {} {
      var x :| x in xs;
      ImageSize(xs - {x}, f);
      assert Image(xs, f) == Image(xs - {x}, f) + {f(x)};
    }
  }

  lemma SameComponent(root: seq<int>, rank: seq<int>, pairs: set<(int, int)>, x: int)
    requires Represents(root, rank, pairs) && Node(root, x)
    ensures Component(Nodes(root), pairs, x) == Tree(root, rank, Find(root, rank, x))
  {
    forall y | y in Nodes(root) ensures Linked(pairs, x, y) <==> Find(root, rank, x) == Find(root, rank, y) {
      SameRootIffLinked(root, rank, pairs, x, y);
    }
  }

  /** There are as many classes as roots. */
  lemma ClassesAreRoots(root: seq<int>, rank: seq<int>, pairs: set<(int, int)>)
    requires Represents(root, rank, pairs)
    ensures |Components(Nodes(root), pairs)| == |Roots(root)|
  {
    var f := (r: int) => Tree(root, rank, r);
    forall a, b | a in Roots(root) && b in Roots(root) && f(a) == f(b) ensures a == b {
      assert Find(root, rank, a) == a && Find(root, rank, b) == b;
      assert a in Tree(root, rank, a);
    }
    ImageSize(Roots(root), f);
    var trees := Image(Roots(root), f);
    forall c | c in Components(Nodes(root), pairs) ensures c in trees {
      var x :| x in Nodes(root) && c == Component(Nodes(root), pairs, x);
      SameComponent(root, rank, pairs, x);
      assert f(Find(root, rank, x)) in trees;
    }
    forall c | c in trees ensures c in Components(Nodes(root), pairs) {
      var r :| r in Roots(root) && c == f(r);
      SameComponent(root, rank, pairs, r);
      assert r in Nodes(root);
    }
    assert Components(Nodes(root), pairs) == trees;
  }

  // --- the loops without ranks ------------------------------------------------------------

  /** The parent-walking loop of the plain union-find classes. */
  method FindRoot(root: seq<int>, ghost rank: seq<int>, x: int) returns (r: int)
    requires Forest(root, rank) && Node(root, x)
    ensures r == Find(root, rank, x)
  {
    r := x;
    while r != root[r]
      invariant Node(root, r) && Find(root, rank, r) == Find(root, rank, x)
      decreases Above(rank, r)
    {
      Climb(root, rank, r);
      r := root[r];
    }
  }

  /** Ranks that keep the forest rising once ry hangs under rx. */
  ghost function Raise(rank: seq<int>, rx: int, ry: int): seq<int>
    requires 0 <= rx < |rank| && 0 <= ry < |rank|
  {
    if rank[rx] > rank[ry] then rank else rank[rx := rank[ry] + 1]
  }

  /** The forest over 0..n in which every slot is its own root. */
  lemma Singletons(root: seq<int>, rank: seq<int>)
    requires |rank| == |root| && forall i :: 0 <= i < |root| ==> root[i] == i || root[i] == -1
    ensures Represents(root, rank, {}) && Roots(root) == Nodes(root)
  {
    forall i | Node(root, i) ensures Rises(root, rank, i) {}
    forall i | Node(root, i) ensures LinkedToRoot(root, rank, {}, i) {
      LinkedRefl({}, i);
    }
  }
}
