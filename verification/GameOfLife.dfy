/** Conway's generation computed in place: marks that remember the old state, then a pass that drops the memory. */
module GameOfLife {

  type Cell = (int, int)

  predicate InBoard(p: Cell, r: int, c: int) { 0 <= p.0 < r && 0 <= p.1 < c }

  predicate Adjacent(p: Cell, q: Cell) {
    p != q && q.0 - 1 <= p.0 <= q.0 + 1 && q.1 - 1 <= p.1 <= q.1 + 1
  }

  function Abs(x: int): int { if x < 0 then -x else x }

  /** The cells around q, of those alive. */
  ghost function Around(live: set<Cell>, q: Cell): set<Cell> {
    set p | p in live && Adjacent(p, q)
  }

  /** The rule, on the old state alone. */
  predicate AliveNext(alive: bool, neighbours: int) {
    if alive then 2 <= neighbours <= 3 else neighbours == 3
  }

  ghost predicate IsNext(live: set<Cell>, q: Cell) {
    AliveNext(q in live, |Around(live, q)|)
  }

  /** The simultaneous update of the whole board. */
  ghost function NextGeneration(live: set<Cell>, r: int, c: int): set<Cell> {
    set i, j | 0 <= i < r && 0 <= j < c && IsNext(live, (i, j)) :: (i, j)
  }

  /** 1 and -1 were alive, 0 and 2 were dead; positive marks are alive next. */
  ghost predicate Marked(v: int, alive: bool, next: bool) {
    -1 <= v <= 2 && (Abs(v) == 1 <==> alive) && (v > 0 <==> next)
  }

  predicate Before(i: int, j: int, r: int, c: int) { i < r || (i == r && j < c) }

  ghost predicate OldState(board: array2<int>, live: set<Cell>)
    reads board
  {
    forall i, j :: 0 <= i < board.Length0 && 0 <= j < board.Length1 ==> (Abs(board[i, j]) == 1 <==> (i, j) in live)
  }

  ghost predicate Bits(board: array2<int>)
    reads board
  {
    forall i, j :: 0 <= i < board.Length0 && 0 <= j < board.Length1 ==> board[i, j] == 0 || board[i, j] == 1
  }

  ghost function LiveCells(board: array2<int>): set<Cell>
    reads board
  {
    set i, j | 0 <= i < board.Length0 && 0 <= j < board.Length1 && board[i, j] == 1 :: (i, j)
  }

  /** The eight directions, in the order they are tried. */
  function Directions(): seq<Cell> {
    [(0, 1), (1, 1), (1, 0), (-1, 0), (0, -1), (-1, -1), (1, -1), (-1, 1)]
  }

  function Towards(q: Cell, k: nat): Cell
    requires k < 8
  {
    (q.0 + Directions()[k].0, q.1 + Directions()[k].1)
  }

  /** Each neighbour lies in exactly one of the directions. */
  lemma DirectionsReachNeighbours(p: Cell, q: Cell)
    ensures Adjacent(p, q) <==> exists k: nat :: k < 8 && Towards(q, k) == p
    ensures forall j: nat, k: nat :: j < k < 8 ==> Towards(q, j) != Towards(q, k)
  {
    assert Towards(q, 0) == (q.0, q.1 + 1) && Towards(q, 1) == (q.0 + 1, q.1 + 1);
    assert Towards(q, 2) == (q.0 + 1, q.1) && Towards(q, 3) == (q.0 - 1, q.1);
    assert Towards(q, 4) == (q.0, q.1 - 1) && Towards(q, 5) == (q.0 - 1, q.1 - 1);
    assert Towards(q, 6) == (q.0 + 1, q.1 - 1) && Towards(q, 7) == (q.0 - 1, q.1 + 1);
  }

  /** The living cells in the first k directions. */
  ghost function Counted(live: set<Cell>, q: Cell, k: nat): set<Cell>
    requires k <= 8
  {
    if k == 0 then {} else Counted(live, q, k - 1) + if Towards(q, k - 1) in live then {Towards(q, k - 1)} else {}
  }

  lemma {:induction false} CountedAre(live: set<Cell>, q: Cell, k: nat, p: Cell)
    requires k <= 8
    ensures p in Counted(live, q, k) <==> p in live && exists m: nat :: m < k && Towards(q, m) == p
  {
    if k > 0 {
      CountedAre(live, q, k - 1, p);
    }
  }

  lemma CountedOnce(live: set<Cell>, q: Cell, k: nat)
    requires k < 8
    ensures Towards(q, k) !in Counted(live, q, k)
  {
    CountedAre(live, q, k, Towards(q, k));
    DirectionsReachNeighbours(q, q);
  }

  lemma AllCounted(live: set<Cell>, q: Cell)
    ensures Counted(live, q, 8) == Around(live, q)
  {
    forall p ensures p in Counted(live, q, 8) <==> p in Around(live, q) {
      CountedAre(live, q, 8, p);
      DirectionsReachNeighbours(p, q);
    }
  }

  method CountAround(board: array2<int>, ghost live: set<Cell>, cr: int, cc: int) returns (total: int)
    requires OldState(board, live) && InBoard((cr, cc), board.Length0, board.Length1)
    requires forall p :: p in live ==> InBoard(p, board.Length0, board.Length1)
    ensures total == |Around(live, (cr, cc))|
  {
    ghost var q := (cr, cc);
    total := 0;
    for k := 0 to 8
      invariant total == |Counted(live, q, k)|
    {
      var mr, mc := Directions()[k].0, Directions()[k].1;
      CountedOnce(live, q, k);
      assert Towards(q, k) == (cr + mr, cc + mc);
      if board.Length0 > cr + mr >= 0 && board.Length1 > cc + mc >= 0 {
        if Abs(board[cr + mr, cc + mc]) == 1 {
          total := total + 1;
        }
      }
    }
    AllCounted(live, q);
  }

  /** Whatever the order of the overwrites, the board ends as the simultaneous update of what it was. */
  method Step(board: array2<int>)
    requires board.Length0 > 0 && Bits(board)
    modifies board
    ensures Bits(board)
    ensures LiveCells(board) == NextGeneration(old(LiveCells(board)), board.Length0, board.Length1)
  {
    ghost var live := LiveCells(board);
    MarkAll(board, live);
    DropMemory(board, live);
    assert forall i, j :: 0 <= i < board.Length0 && 0 <= j < board.Length1 ==>
      (board[i, j] == 1 <==> IsNext(live, (i, j)));
  }

  method MarkAll(board: array2<int>, ghost live: set<Cell>)
    requires Bits(board) && live == LiveCells(board)
    modifies board
    ensures forall i, j :: 0 <= i < board.Length0 && 0 <= j < board.Length1 ==>
      Marked(board[i, j], (i, j) in live, IsNext(live, (i, j)))
  {
    for cr := 0 to board.Length0
      invariant OldState(board, live)
      invariant forall i, j :: 0 <= i < cr && 0 <= j < board.Length1 ==>
        Marked(board[i, j], (i, j) in live, IsNext(live, (i, j)))
      invariant forall i, j :: cr <= i < board.Length0 && 0 <= j < board.Length1 ==> 0 <= board[i, j] <= 1
    {
      for cc := 0 to board.Length1
        invariant OldState(board, live)
        invariant forall i, j :: 0 <= i < board.Length0 && 0 <= j < board.Length1 && Before(i, j, cr, cc) ==>
          Marked(board[i, j], (i, j) in live, IsNext(live, (i, j)))
        invariant forall i, j :: 0 <= i < board.Length0 && 0 <= j < board.Length1 && !Before(i, j, cr, cc) ==>
          0 <= board[i, j] <= 1
      {
        MarkCell(board, live, cr, cc);
      }
    }
  }

  method MarkCell(board: array2<int>, ghost live: set<Cell>, cr: int, cc: int)
    requires OldState(board, live) && InBoard((cr, cc), board.Length0, board.Length1) && 0 <= board[cr, cc] <= 1
    requires forall p :: p in live ==> InBoard(p, board.Length0, board.Length1)
    modifies board
    ensures Marked(board[cr, cc], (cr, cc) in live, IsNext(live, (cr, cc))) && OldState(board, live)
    ensures forall i, j :: 0 <= i < board.Length0 && 0 <= j < board.Length1 && (i, j) != (cr, cc) ==>
      board[i, j] == old(board[i, j])
  {
    var liveTotal := CountAround(board, live, cr, cc);
    if board[cr, cc] == 1 && (liveTotal < 2 || liveTotal > 3) {
      board[cr, cc] := -1;
    }
    if board[cr, cc] == 0 && liveTotal == 3 {
      board[cr, cc] := 2;
    }
  }

  method DropMemory(board: array2<int>, ghost live: set<Cell>)
    requires forall i, j :: 0 <= i < board.Length0 && 0 <= j < board.Length1 ==>
      Marked(board[i, j], (i, j) in live, IsNext(live, (i, j)))
    modifies board
    ensures Bits(board)
    ensures forall i, j :: 0 <= i < board.Length0 && 0 <= j < board.Length1 ==>
      (board[i, j] == 1 <==> IsNext(live, (i, j)))
  {
    for cr := 0 to board.Length0
      invariant forall i, j :: 0 <= i < board.Length0 && 0 <= j < board.Length1 ==>
        (board[i, j] > 0 <==> IsNext(live, (i, j)))
      invariant forall i, j :: 0 <= i < cr && 0 <= j < board.Length1 ==> 0 <= board[i, j] <= 1
    {
      for cc := 0 to board.Length1
        invariant forall i, j :: 0 <= i < board.Length0 && 0 <= j < board.Length1 ==>
          (board[i, j] > 0 <==> IsNext(live, (i, j)))
        invariant forall i, j :: 0 <= i < board.Length0 && 0 <= j < board.Length1 && Before(i, j, cr, cc) ==>
          0 <= board[i, j] <= 1
      {
        if board[cr, cc] > 0 {
          board[cr, cc] := 1;
        } else {
          board[cr, cc] := 0;
        }
      }
    }
  }
}
