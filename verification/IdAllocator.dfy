/** The id allocator over a segment tree of AND-summaries, for any range size, powers of two or not. */
module IdAllocator {
  import opened Basics

  // --- the tree as a sequence of cells ----------------------------------------------------

  /** Every id in lo..hi (inclusive) is allocated. */
  ghost predicate AllIn(alloc: set<int>, lo: int, hi: int) {
    forall id :: lo <= id <= hi ==> id in alloc
  }

  /** j is node i or one of its descendants; the children of i are 2i and 2i+1. */
  predicate Under(i: nat, j: nat)
    decreases j
  {
    j == i || (j > i && Under(i, j / 2))
  }

  lemma {:induction false} UnderChild(i: nat, j: nat)
    requires i >= 1
    ensures Under(2 * i, j) || Under(2 * i + 1, j) ==> Under(i, j) && j != i
    decreases j
  {
    if j > i { UnderChild(i, j / 2); }
  }

  lemma {:induction false} Siblings(i: nat, j: nat)
    requires i >= 1
    ensures !(Under(2 * i, j) && Under(2 * i + 1, j))
    decreases j
  {
    if j > 2 * i + 1 { Siblings(i, j / 2); }
  }

  /** Node i sits at depth log2(p), where at least that fine a split of 0..n is in force, so that
      every index a descent can touch fits the 4n cells. */
  ghost predicate Placed(n: nat, i: nat, lo: int, hi: int, p: nat) {
    n >= 1 && 1 <= p <= i < 2 * p && i < 4 * n && lo <= hi && (hi - lo) * p <= n - 1
  }

  lemma PlacedChildren(n: nat, i: nat, lo: int, hi: int, p: nat)
    requires Placed(n, i, lo, hi, p) && lo < hi
    ensures var mid := (lo + hi) / 2;
      Placed(n, 2 * i, lo, mid, 2 * p) && Placed(n, 2 * i + 1, mid + 1, hi, 2 * p)
  {
    var mid := (lo + hi) / 2;
    HalfWidth(mid - lo, hi - lo, p);
    HalfWidth(hi - mid - 1, hi - lo, p);
    assert p <= (hi - lo) * p;
  }

  lemma HalfWidth(half: int, width: int, p: nat)
    requires 2 * half <= width
    ensures half * (2 * p) <= width * p
  {
    assert half * (2 * p) == (2 * half) * p;
  }

  /** Each node of the subtree at i is 1 exactly when its whole range is allocated. */
  ghost predicate Summary(tree: seq<bv8>, n: nat, i: nat, lo: int, hi: int, p: nat, alloc: set<int>)
    requires |tree| == 4 * n && Placed(n, i, lo, hi, p)
    decreases hi - lo
  {
    tree[i] == (if AllIn(alloc, lo, hi) then 1 else 0) &&
    (lo < hi ==>
      var mid := (lo + hi) / 2;
      PlacedChildren(n, i, lo, hi, p);
      Summary(tree, n, 2 * i, lo, mid, 2 * p, alloc) &&
      Summary(tree, n, 2 * i + 1, mid + 1, hi, 2 * p, alloc))
  }

  /** A subtree's summary depends on its own cells and on the ids of its own range only. */
  lemma {:induction false} SummaryFrame(tree: seq<bv8>, tree': seq<bv8>, n: nat, i: nat, lo: int, hi: int, p: nat,
                                        alloc: set<int>, alloc': set<int>)
    requires |tree| == |tree'| == 4 * n && Placed(n, i, lo, hi, p)
    requires Summary(tree, n, i, lo, hi, p, alloc)
    requires forall j: nat :: j < 4 * n && Under(i, j) ==> tree'[j] == tree[j]
    requires forall id :: lo <= id <= hi ==> (id in alloc <==> id in alloc')
    ensures Summary(tree', n, i, lo, hi, p, alloc')
    decreases hi - lo
  {
    assert Under(i, i);
    if lo < hi {
      var mid := (lo + hi) / 2;
      PlacedChildren(n, i, lo, hi, p);
      forall j: nat | j < 4 * n && (Under(2 * i, j) || Under(2 * i + 1, j)) ensures tree'[j] == tree[j] {
        UnderChild(i, j);
      }
      SummaryFrame(tree, tree', n, 2 * i, lo, mid, 2 * p, alloc, alloc');
      SummaryFrame(tree, tree', n, 2 * i + 1, mid + 1, hi, 2 * p, alloc, alloc');
    }
  }

  /** Nothing is allocated in a tree of zeros. */
  lemma {:induction false} EmptySummary(tree: seq<bv8>, n: nat, i: nat, lo: int, hi: int, p: nat)
    requires |tree| == 4 * n && Placed(n, i, lo, hi, p) && forall j :: 0 <= j < |tree| ==> tree[j] == 0
    ensures Summary(tree, n, i, lo, hi, p, {})
    decreases hi - lo
  {
    var none: set<int> := {};
    assert lo !in none && !AllIn(none, lo, hi);
    if lo < hi {
      PlacedChildren(n, i, lo, hi, p);
      EmptySummary(tree, n, 2 * i, lo, (lo + hi) / 2, 2 * p);
      EmptySummary(tree, n, 2 * i + 1, (lo + hi) / 2 + 1, hi, 2 * p);
    }
  }

  /** A change confined to one child and its ids leaves the other child's summary right. */
  lemma SiblingKeeps(tree: seq<bv8>, tree': seq<bv8>, n: nat, i: nat, child: nat, other: nat, lo: int, hi: int, p: nat,
                     alloc: set<int>, alloc': set<int>)
    requires i >= 1 && {child, other} == {2 * i, 2 * i + 1}
    requires |tree| == |tree'| == 4 * n && Placed(n, other, lo, hi, p) && Summary(tree, n, other, lo, hi, p, alloc)
    requires forall j: nat :: j < 4 * n && !Under(child, j) ==> tree'[j] == tree[j]
    requires forall id :: lo <= id <= hi ==> (id in alloc <==> id in alloc')
    ensures Summary(tree', n, other, lo, hi, p, alloc')
  {
    assert child in {2 * i, 2 * i + 1} && other in {2 * i, 2 * i + 1};
    assert child != other by {
      assert 2 * i in {child, other} && 2 * i + 1 in {child, other};
    }
    forall j: nat | j < 4 * n && Under(other, j) ensures tree'[j] == tree[j] {
      Siblings(i, j);
    }
    SummaryFrame(tree, tree', n, other, lo, hi, p, alloc, alloc');
  }

  /** Refreshing a node from its children restores the whole subtree. */
  lemma Refreshed(tree: seq<bv8>, n: nat, i: nat, lo: int, hi: int, p: nat, alloc: set<int>)
    requires |tree| == 4 * n && Placed(n, i, lo, hi, p) && lo < hi
    requires 2 * i + 1 < 4 * n
    requires var mid := (lo + hi) / 2;
      Placed(n, 2 * i, lo, mid, 2 * p) && Placed(n, 2 * i + 1, mid + 1, hi, 2 * p) &&
      Summary(tree, n, 2 * i, lo, mid, 2 * p, alloc) && Summary(tree, n, 2 * i + 1, mid + 1, hi, 2 * p, alloc)
    ensures Summary(tree[i := tree[2 * i] & tree[2 * i + 1]], n, i, lo, hi, p, alloc)
  {
    var mid := (lo + hi) / 2;
    var tree' := tree[i := tree[2 * i] & tree[2 * i + 1]];
    forall j: nat | j < 4 * n && (Under(2 * i, j) || Under(2 * i + 1, j)) ensures tree'[j] == tree[j] {
      UnderChild(i, j);
    }
    SummaryFrame(tree, tree', n, 2 * i, lo, mid, 2 * p, alloc, alloc);
    SummaryFrame(tree, tree', n, 2 * i + 1, mid + 1, hi, 2 * p, alloc, alloc);
    assert AllIn(alloc, lo, hi) <==> AllIn(alloc, lo, mid) && AllIn(alloc, mid + 1, hi);
  }

  // --- the allocator ----------------------------------------------------------------------

  /** id is the lowest free id of 0..n. */
  ghost predicate LowestFree(alloc: set<int>, n: nat, id: int) {
    0 <= id < n && id !in alloc && forall k :: 0 <= k < id ==> k in alloc
  }

  /** The leaf of lo..hi a release of id descends to: id itself, or the nearest end of the range. */
  function Clamp(id: int, lo: int, hi: int): int {
    if id <= lo then lo else if id >= hi then hi else id
  }

  class SegmentTreeAllocator {
    const maxId: nat
    const tree: array<bv8>
    ghost var alloc: set<int>             // the ids out

    ghost predicate Valid()
      reads this, tree
    {
      maxId >= 1 && tree.Length == 4 * maxId &&
      (forall id :: id in alloc ==> 0 <= id < maxId) &&
      Placed(maxId, 1, 0, maxId - 1, 1) &&
      Summary(tree[..], maxId, 1, 0, maxId - 1, 1, alloc)
    }

    constructor (n: nat)
      requires n >= 1
      ensures Valid() && maxId == n && alloc == {} && fresh(tree)
    {
      maxId := n;
      tree := new bv8[4 * n](_ => 0);
      alloc := {};
      new;
      EmptySummary(tree[..], n, 1, 0, n - 1, 1);
    }

    method Allocate() returns (id: Option<int>)
      requires Valid()
      modifies this, tree
      ensures Valid()
      ensures id.None? <==> AllIn(old(alloc), 0, maxId - 1)
      ensures id.None? ==> alloc == old(alloc)
      ensures id.Some? ==> LowestFree(old(alloc), maxId, id.value) && alloc == old(alloc) + {id.value}
    {
      if tree[1] == 1 {
        return None;
      }
      var got := ClaimLowest(1, 0, maxId - 1, 1, alloc);
      alloc := alloc + {got};
      return Some(got);
    }

    /** Frees one id; releasing a free id, or one outside the range, is what the descent makes of it. */
    method Release(id: int)
      requires Valid()
      modifies this, tree
      ensures Valid() && alloc == old(alloc) - {Clamp(id, 0, maxId - 1)}
    {
      Free(1, 0, maxId - 1, id, 1, alloc);
      alloc := alloc - {Clamp(id, 0, maxId - 1)};
    }

    /** Claims the lowest free id below node i and refreshes the summaries on the way back up. */
    method ClaimLowest(i: nat, lo: int, hi: int, ghost p: nat, ghost ids: set<int>) returns (id: int)
      requires tree.Length == 4 * maxId && Placed(maxId, i, lo, hi, p)
      requires Summary(tree[..], maxId, i, lo, hi, p, ids) && !AllIn(ids, lo, hi)
      modifies tree
      ensures lo <= id <= hi && id !in ids && AllIn(ids, lo, id - 1)
      ensures Summary(tree[..], maxId, i, lo, hi, p, ids + {id})
      ensures forall j: nat :: j < tree.Length && !Under(i, j) ==> tree[j] == old(tree[j])
      decreases hi - lo
    {
      if lo == hi {
        tree[i] := 1;
        return lo;
      }
      var mid := (lo + hi) / 2;
      PlacedChildren(maxId, i, lo, hi, p);
      ghost var before := tree[..];
      if tree[2 * i] == 0 {
        id := ClaimLowest(2 * i, lo, mid, 2 * p, ids);
        SiblingKeeps(before, tree[..], maxId, i, 2 * i, 2 * i + 1, mid + 1, hi, 2 * p, ids, ids + {id});
      } else {
        id := ClaimLowest(2 * i + 1, mid + 1, hi, 2 * p, ids);
        SiblingKeeps(before, tree[..], maxId, i, 2 * i + 1, 2 * i, lo, mid, 2 * p, ids, ids + {id});
      }
      Refresh(i, lo, hi, p, ids + {id});
      ChildrenOnly(before, tree[..], i);
    }

    /** Node i becomes the AND of its children. */
    method Refresh(i: nat, lo: int, hi: int, ghost p: nat, ghost ids: set<int>)
      requires tree.Length == 4 * maxId && Placed(maxId, i, lo, hi, p) && lo < hi
      requires var mid := (lo + hi) / 2;
        Placed(maxId, 2 * i, lo, mid, 2 * p) && Placed(maxId, 2 * i + 1, mid + 1, hi, 2 * p) &&
        Summary(tree[..], maxId, 2 * i, lo, mid, 2 * p, ids) &&
        Summary(tree[..], maxId, 2 * i + 1, mid + 1, hi, 2 * p, ids)
      modifies tree
      ensures Summary(tree[..], maxId, i, lo, hi, p, ids)
      ensures forall j: nat :: j < tree.Length && j != i ==> tree[j] == old(tree[j])
    {
      Refreshed(tree[..], maxId, i, lo, hi, p, ids);
      ghost var after := tree[..][i := tree[2 * i] & tree[2 * i + 1]];
      tree[i] := tree[2 * i] & tree[2 * i + 1];
      assert tree[..] == after;
    }

    method Free(i: nat, lo: int, hi: int, target: int, ghost p: nat, ghost ids: set<int>)
      requires tree.Length == 4 * maxId && Placed(maxId, i, lo, hi, p)
      requires Summary(tree[..], maxId, i, lo, hi, p, ids)
      modifies tree
      ensures Summary(tree[..], maxId, i, lo, hi, p, ids - {Clamp(target, lo, hi)})
      ensures forall j: nat :: j < tree.Length && !Under(i, j) ==> tree[j] == old(tree[j])
      decreases hi - lo
    {
      if lo == hi {
        tree[i] := 0;
        return;
      }
      var mid := (lo + hi) / 2;
      PlacedChildren(maxId, i, lo, hi, p);
      ghost var before, victim := tree[..], Clamp(target, lo, hi);
      ghost var ids' := ids - {victim};
      if target <= mid {
        assert Clamp(target, lo, mid) == victim && lo <= victim <= mid;
        Free(2 * i, lo, mid, target, 2 * p, ids);
        SiblingKeeps(before, tree[..], maxId, i, 2 * i, 2 * i + 1, mid + 1, hi, 2 * p, ids, ids');
      } else {
        assert Clamp(target, mid + 1, hi) == victim && mid + 1 <= victim <= hi;
        Free(2 * i + 1, mid + 1, hi, target, 2 * p, ids);
        SiblingKeeps(before, tree[..], maxId, i, 2 * i + 1, 2 * i, lo, mid, 2 * p, ids, ids');
      }
      Refresh(i, lo, hi, p, ids');
      ChildrenOnly(before, tree[..], i);
    }
  }

  lemma ChildrenOnly(tree: seq<bv8>, tree': seq<bv8>, i: nat)
    requires i >= 1 && |tree| == |tree'|
    requires (forall j: nat :: j < |tree| && j != i && !Under(2 * i, j) ==> tree'[j] == tree[j]) ||
             (forall j: nat :: j < |tree| && j != i && !Under(2 * i + 1, j) ==> tree'[j] == tree[j])
    ensures forall j: nat :: j < |tree| && !Under(i, j) ==> tree'[j] == tree[j]
  {
    forall j: nat | j < |tree| && !Under(i, j) ensures tree'[j] == tree[j] {
      UnderChild(i, j);
    }
  }
}
