/** Counting islands: 4-connected groups of land cells, with union-find over row-major cell numbers. */
module Islands {
  import opened Basics
  import opened DisjointForest

  type Grid = seq<seq<char>>

  predicate Rectangular(grid: Grid) {
    forall r :: 0 <= r < |grid| ==> |grid[r]| == |grid[0]|
  }

  /** A nonempty rectangular grid. */
  predicate Board(grid: Grid) {
    |grid| > 0 && |grid[0]| > 0 && Rectangular(grid)
  }

  function Width(grid: Grid): nat
    requires |grid| > 0
  {
    |grid[0]|
  }

  function Size(grid: Grid): nat
    requires |grid| > 0
  {
    |grid| * |grid[0]|
  }

  lemma CellNumber(nr: nat, nc: nat, r: int, c: int)
    requires 0 <= r < nr && 0 <= c < nc
    ensures 0 <= r * nc + c < nr * nc && (r * nc + c) / nc == r && (r * nc + c) % nc == c
  {
    RowsFit(nr, nc, r);
    DivMod(nc, r, c);
  }

  lemma RowsFit(nr: nat, nc: nat, r: int)
    requires 0 <= r < nr
    ensures 0 <= r * nc && r * nc + nc <= nr * nc
  {
    assert (r + 1) * nc <= nr * nc;
  }

  lemma RowInRange(nr: nat, nc: nat, i: int)
    requires 0 <= i < nr * nc
    ensures 0 < nc && 0 <= i / nc < nr && 0 <= i % nc < nc && i == (i / nc) * nc + i % nc
  {
    assert nc > 0;
    var q := i / nc;
    assert q >= nr ==> q * nc >= nr * nc;
  }

  ghost predicate LandAt(grid: Grid, i: int)
    requires Board(grid)
  {
    0 <= i < Size(grid) &&
    (RowInRange(|grid|, Width(grid), i);
     grid[i / Width(grid)][i % Width(grid)] == '1')
  }

  /** Land cells sharing an edge. */
  ghost predicate Adjacent(grid: Grid, a: int, b: int)
    requires Board(grid)
  {
    var nc := Width(grid);
    LandAt(grid, a) && LandAt(grid, b) &&
    ((a / nc == b / nc && (a % nc == b % nc + 1 || b % nc == a % nc + 1)) ||
     (a % nc == b % nc && (a / nc == b / nc + 1 || b / nc == a / nc + 1)))
  }

  ghost function Land(grid: Grid): set<int>
    requires Board(grid)
  {
    set i | 0 <= i < Size(grid) && LandAt(grid, i)
  }

  ghost function Borders(grid: Grid, k: int): set<(int, int)>
    requires Board(grid)
  {
    set a, b | 0 <= a < Size(grid) && 0 <= b < Size(grid) && a < k && Adjacent(grid, a, b) :: (a, b)
  }

  /** The number of islands: classes of the closure of adjacency on the land cells. */
  ghost function IslandCount(grid: Grid): nat {
    if !Board(grid) then 0
    else |Components(Land(grid), Borders(grid, Size(grid)))|
  }

  class UnionFind {
    var root: seq<int>
    var count: int
    ghost var rank: seq<int>
    ghost var pairs: set<(int, int)>

    ghost predicate Valid()
      reads this
    {
      Represents(root, rank, pairs) && count == |Roots(root)|
    }

    constructor (grid: Grid)
      requires Board(grid)
      ensures Valid() && |root| == Size(grid) && Nodes(root) == Land(grid) && pairs == {}
    {
      root := [];
      count := 0;
      new;
      var nr, nc := |grid|, |grid[0]|;
      for rn := 0 to nr
        invariant |root| == rn * nc && count == |Roots(root)|
        invariant forall i :: 0 <= i < |root| ==> root[i] == if LandAt(grid, i) then i else -1
      {
        for cn := 0 to nc
          invariant |root| == rn * nc + cn && count == |Roots(root)|
          invariant forall i :: 0 <= i < |root| ==> root[i] == if LandAt(grid, i) then i else -1
        {
          CellNumber(nr, nc, rn, cn);
          ghost var before := root;
          if grid[rn][cn] == '1' {
            root := root + [rn * nc + cn];
            count := count + 1;
            assert Roots(root) == Roots(before) + {rn * nc + cn};
          } else {
            root := root + [-1];
            assert Roots(root) == Roots(before);
          }
        }
        assert (rn + 1) * nc == rn * nc + nc;
      }
      rank := seq(|root|, _ => 0);
      pairs := {};
      Singletons(root, rank);
    }

    /** Merges the sets of x and y; count falls exactly when they were apart. */
    method Union(x: int, y: int)
      requires Valid() && Node(root, x) && Node(root, y)
      modifies this
      ensures Valid() && |root| == |old(root)| && Nodes(root) == Nodes(old(root))
      ensures pairs == old(pairs) + {(x, y)}
      ensures count == old(count) - if Linked(old(pairs), x, y) then 0 else 1
    {
      var rx := FindRoot(root, rank, x);
      var ry := FindRoot(root, rank, y);
      SameRootIffLinked(root, rank, pairs, x, y);
      if rx != ry {
        ghost var rank' := Raise(rank, rx, ry);
        LinkForest(root, rank, rx, ry, rank');
        LinkRepresents(root, rank, pairs, x, y, rx, ry, rank');
        assert ry in Roots(root);
        root := root[ry := rx];
        rank := rank';
        count := count - 1;
      } else {
        AddLinked(root, rank, pairs, x, y);
      }
      pairs := pairs + {(x, y)};
    }
  }

  predicate IsLand(grid: Grid, r: int, c: int)
    requires Board(grid)
  {
    0 <= r < |grid| && 0 <= c < Width(grid) && grid[r][c] == '1'
  }

  /** The border between two cells, when the second is land inside the grid. */
  ghost function Border(grid: Grid, r: int, c: int, r': int, c': int): set<(int, int)>
    requires Board(grid)
  {
    if IsLand(grid, r', c') then {(r * Width(grid) + c, r' * Width(grid) + c')} else {}
  }

  /** The borders of one cell: up, down, left and right. */
  ghost function CellBorders(grid: Grid, r: int, c: int): set<(int, int)>
    requires Board(grid)
  {
    if !IsLand(grid, r, c) then {} else
      Border(grid, r, c, r - 1, c) + Border(grid, r, c, r + 1, c) +
      Border(grid, r, c, r, c - 1) + Border(grid, r, c, r, c + 1)
  }

  lemma SameCell(nc: nat, r: int, c: int, r': int, c': int)
    requires 0 <= c < nc && 0 <= c' < nc
    ensures r * nc + c == r' * nc + c' <==> r == r' && c == c'
  {
    DivMod(nc, r, c);
    DivMod(nc, r', c');
  }

  lemma LandCell(grid: Grid, r: int, c: int)
    requires Board(grid) && 0 <= r < |grid| && 0 <= c < Width(grid)
    ensures LandAt(grid, r * Width(grid) + c) <==> grid[r][c] == '1'
  {
    CellNumber(|grid|, Width(grid), r, c);
  }

  /** Adjacent cells, by row and column. */
  lemma AdjacentCells(grid: Grid, r: int, c: int, r': int, c': int)
    requires Board(grid) && 0 <= r < |grid| && 0 <= c < Width(grid) && 0 <= r' < |grid| && 0 <= c' < Width(grid)
    ensures Adjacent(grid, r * Width(grid) + c, r' * Width(grid) + c') <==>
      grid[r][c] == '1' && grid[r'][c'] == '1' &&
      ((r == r' && (c == c' + 1 || c' == c + 1)) || (c == c' && (r == r' + 1 || r' == r + 1)))
  {
    CellNumber(|grid|, Width(grid), r, c);
    CellNumber(|grid|, Width(grid), r', c');
    LandCell(grid, r, c);
    LandCell(grid, r', c');
  }

  lemma CellBordersAre(grid: Grid, r: int, c: int, b: int)
    requires Board(grid) && 0 <= r < |grid| && 0 <= c < Width(grid) && 0 <= b < Size(grid)
    ensures Adjacent(grid, r * Width(grid) + c, b) <==> (r * Width(grid) + c, b) in CellBorders(grid, r, c)
  {
    var nc := Width(grid);
    RowInRange(|grid|, nc, b);
    var r', c' := b / nc, b % nc;
    AdjacentCells(grid, r, c, r', c');
    SameCell(nc, r - 1, c, r', c');
    SameCell(nc, r + 1, c, r', c');
    if c - 1 >= 0 { SameCell(nc, r, c - 1, r', c'); }
    if c + 1 < nc { SameCell(nc, r, c + 1, r', c'); }
  }

  lemma NextCell(grid: Grid, r: int, c: int)
    requires Board(grid) && 0 <= r < |grid| && 0 <= c < Width(grid)
    ensures Borders(grid, r * Width(grid) + c + 1) == Borders(grid, r * Width(grid) + c) + CellBorders(grid, r, c)
  {
    var k := r * Width(grid) + c;
    CellNumber(|grid|, Width(grid), r, c);
    forall b | 0 <= b < Size(grid)
      ensures Adjacent(grid, k, b) <==> (k, b) in CellBorders(grid, r, c)
    {
      CellBordersAre(grid, r, c, b);
    }
    forall p | p in CellBorders(grid, r, c) ensures p.0 == k && 0 <= p.1 < Size(grid) {
      NeighbourInRange(grid, r, c, p);
    }
  }

  lemma NeighbourInRange(grid: Grid, r: int, c: int, p: (int, int))
    requires Board(grid) && 0 <= r < |grid| && 0 <= c < Width(grid) && p in CellBorders(grid, r, c)
    ensures p.0 == r * Width(grid) + c && 0 <= p.1 < Size(grid)
  {
    var nr, nc := |grid|, Width(grid);
    if r - 1 >= 0 { CellNumber(nr, nc, r - 1, c); }
    if r + 1 < nr { CellNumber(nr, nc, r + 1, c); }
    if c - 1 >= 0 { CellNumber(nr, nc, r, c - 1); }
    if c + 1 < nc { CellNumber(nr, nc, r, c + 1); }
  }

  ghost predicate Ready(grid: Grid, uf: UnionFind, pairs: set<(int, int)>)
    requires Board(grid)
    reads uf
  {
    uf.Valid() && Nodes(uf.root) == Land(grid) && uf.pairs == pairs
  }

  method NumIslands(grid: Grid) returns (islands: int)
    requires Rectangular(grid)
    ensures islands == IslandCount(grid)
  {
    if |grid| == 0 || |grid[0]| == 0 {
      return 0;
    }
    var uf := new UnionFind(grid);
    var nr, nc := |grid|, |grid[0]|;
    assert Borders(grid, 0) == {};
    for r := 0 to nr
      invariant fresh(uf) && Ready(grid, uf, Borders(grid, r * nc))
    {
      UnionRow(grid, uf, r);
      assert (r + 1) * nc == r * nc + nc;
    }
    ClassesAreRoots(uf.root, uf.rank, uf.pairs);
    return uf.count;
  }

  method UnionRow(grid: Grid, uf: UnionFind, r: int)
    requires Board(grid) && 0 <= r < |grid| && Ready(grid, uf, Borders(grid, r * Width(grid)))
    modifies uf
    ensures Ready(grid, uf, Borders(grid, r * Width(grid) + Width(grid)))
  {
    for c := 0 to Width(grid)
      invariant Ready(grid, uf, Borders(grid, r * Width(grid) + c))
    {
      NextCell(grid, r, c);
      if grid[r][c] == '1' {
        UnionCell(grid, uf, Borders(grid, r * Width(grid) + c), r, c);
      }
    }
  }

  /** The loop body: join the cell to each land neighbour, up, down, left and right. */
  method UnionCell(grid: Grid, uf: UnionFind, ghost pairs: set<(int, int)>, r: int, c: int)
    requires Board(grid) && IsLand(grid, r, c) && Ready(grid, uf, pairs)
    modifies uf
    ensures Ready(grid, uf, pairs + CellBorders(grid, r, c))
  {
    UnionIfLand(grid, uf, pairs, r, c, r - 1, c);
    ghost var up := pairs + Border(grid, r, c, r - 1, c);
    UnionIfLand(grid, uf, up, r, c, r + 1, c);
    ghost var down := up + Border(grid, r, c, r + 1, c);
    UnionIfLand(grid, uf, down, r, c, r, c - 1);
    ghost var left := down + Border(grid, r, c, r, c - 1);
    UnionIfLand(grid, uf, left, r, c, r, c + 1);
    BordersTogether(grid, pairs, r, c);
  }

  lemma BordersTogether(grid: Grid, pairs: set<(int, int)>, r: int, c: int)
    requires Board(grid) && IsLand(grid, r, c)
    ensures pairs + Border(grid, r, c, r - 1, c) + Border(grid, r, c, r + 1, c) + Border(grid, r, c, r, c - 1)
              + Border(grid, r, c, r, c + 1) == pairs + CellBorders(grid, r, c)
  {
  }

  lemma LandNode(grid: Grid, root: seq<int>, r: int, c: int)
    requires Board(grid) && IsLand(grid, r, c) && Nodes(root) == Land(grid)
    ensures Node(root, r * Width(grid) + c)
  {
    LandCell(grid, r, c);
    assert r * Width(grid) + c in Nodes(root);
  }

  method UnionIfLand(grid: Grid, uf: UnionFind, ghost pairs: set<(int, int)>, r: int, c: int, r': int, c': int)
    requires Board(grid) && IsLand(grid, r, c) && Ready(grid, uf, pairs)
    modifies uf
    ensures Ready(grid, uf, pairs + Border(grid, r, c, r', c'))
  {
    if IsLand(grid, r', c') {
      var nc := Width(grid);
      LandNode(grid, uf.root, r, c);
      LandNode(grid, uf.root, r', c');
      uf.Union(r * nc + c, r' * nc + c');
    } else {
      assert pairs + Border(grid, r, c, r', c') == pairs;
    }
  }
}
