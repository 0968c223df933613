/** Value model of the Connect-Four grid held by `Board` in main.cpp.
    A grid is six rows of seven occupants; row 0 is the bottom row.
    An occupant is 0 (empty), 1 (the human player) or 2 (the CPU). */
module Grid {

  const Rows: int := 6
  const Cols: int := 7

  const Empty: int := 0
  const Player: int := 1
  const Cpu: int := 2

  /** The occupants, row by row: `g[row][col]`. */
  type Cells = seq<seq<int>>

  predicate InRange(row: int, col: int) {
    0 <= row < Rows && 0 <= col < Cols
  }

  predicate WellFormed(g: Cells) {
    |g| == Rows && forall i :: 0 <= i < Rows ==> |g[i]| == Cols
  }

  /** Every cell holds one of the three occupant codes. */
  ghost predicate Legal(g: Cells)
    requires WellFormed(g)
  {
    forall i, j :: InRange(i, j) ==> Empty <= g[i][j] <= Cpu
  }

  /** No floating pieces: an occupied cell above row 0 rests on an occupied cell. */
  ghost predicate Gravity(g: Cells)
    requires WellFormed(g)
  {
    forall i, j :: InRange(i, j) && 0 < i && g[i][j] != Empty ==> g[i - 1][j] != Empty
  }

  /** Reference meaning of `isSpaceOccupied`: on the board and not empty. */
  predicate Occupied(g: Cells, row: int, col: int)
    requires WellFormed(g)
  {
    InRange(row, col) && g[row][col] != Empty
  }

  /** Reference meaning of `isSpaceAvailable`: on the board, empty, and resting on
      the bottom row or on an occupied cell. */
  predicate Available(g: Cells, row: int, col: int)
    requires WellFormed(g)
  {
    InRange(row, col) && g[row][col] == Empty && (row == 0 || g[row - 1][col] != Empty)
  }

  /** A column counts as full when its top cell is occupied. */
  predicate ColumnFull(g: Cells, col: int)
    requires WellFormed(g) && 0 <= col < Cols
  {
    g[Rows - 1][col] != Empty
  }

  /** The tie test: every column's top cell is occupied. */
  predicate Tie(g: Cells)
    requires WellFormed(g)
  {
    forall c :: 0 <= c < Cols ==> ColumnFull(g, c)
  }

  /** All 42 cells are occupied. */
  ghost predicate Full(g: Cells)
    requires WellFormed(g)
  {
    forall i, j :: InRange(i, j) ==> g[i][j] != Empty
  }

  function EmptyCells(): (g: Cells)
    ensures WellFormed(g)
    ensures forall i, j :: InRange(i, j) ==> g[i][j] == Empty
  {
    seq(Rows, _ => seq(Cols, _ => Empty))
  }

  /** Write-once placement: the cell takes `who` only if it is on the board and empty. */
  function Place(g: Cells, row: int, col: int, who: int): (h: Cells)
    requires WellFormed(g)
    ensures WellFormed(h)
  {
    if InRange(row, col) && g[row][col] == Empty then g[row := g[row][col := who]] else g
  }

  /** Two well-formed grids with the same occupants are the same grid. */
  lemma SameCells(a: Cells, b: Cells)
    requires WellFormed(a) && WellFormed(b)
    requires forall i, j :: InRange(i, j) ==> a[i][j] == b[i][j]
    ensures a == b
  {
    forall i | 0 <= i < Rows
      ensures a[i] == b[i]
    {
      assert forall j :: 0 <= j < Cols ==> a[i][j] == b[i][j];
    }
  }

  // ---------------------------------------------------------------------------
  // Placement

  /** A placement writes at most the one named cell, and only over an empty cell. */
  lemma PlaceIsLocal(g: Cells, row: int, col: int, who: int)
    requires WellFormed(g)
    ensures forall i, j :: InRange(i, j) && (i != row || j != col) ==> Place(g, row, col, who)[i][j] == g[i][j]
    ensures InRange(row, col) && g[row][col] == Empty ==> Place(g, row, col, who)[row][col] == who
    ensures !InRange(row, col) || g[row][col] != Empty ==> Place(g, row, col, who) == g
  {
  }

  /** Placing a legal occupant keeps every cell legal. */
  lemma PlaceLegal(g: Cells, row: int, col: int, who: int)
    requires WellFormed(g) && Legal(g) && Empty <= who <= Cpu
    ensures Legal(Place(g, row, col, who))
  {
  }

  /** A placement guarded by availability keeps gravity. */
  lemma PlaceAvailableKeepsGravity(g: Cells, row: int, col: int, who: int)
    requires WellFormed(g) && Gravity(g) && Available(g, row, col) && who != Empty
    ensures Gravity(Place(g, row, col, who))
  {
    var h := Place(g, row, col, who);
    forall i, j | InRange(i, j) && 0 < i && h[i][j] != Empty
      ensures h[i - 1][j] != Empty
    {
      if i == row && j == col {
        assert h[i - 1][j] == g[i - 1][j];
      } else {
        assert h[i][j] == g[i][j];
      }
    }
  }

  // ---------------------------------------------------------------------------
  // Column shape under gravity

  /** The index of the first empty cell of column `col` at or above row `r`
      (or `Rows` when there is none). */
  function StackTop(g: Cells, col: int, r: int): (top: int)
    requires WellFormed(g) && 0 <= col < Cols && 0 <= r <= Rows
    ensures r <= top <= Rows
    decreases Rows - r
  {
    if r == Rows || g[r][col] == Empty then r else StackTop(g, col, r + 1)
  }

  /** The number of pieces stacked in a column counted from the bottom. */
  function Height(g: Cells, col: int): int
    requires WellFormed(g) && 0 <= col < Cols
  {
    StackTop(g, col, 0)
  }

  lemma {:induction false} StackTopShape(g: Cells, col: int, r: int)
    requires WellFormed(g) && Gravity(g) && 0 <= col < Cols && 0 <= r <= Rows
    requires forall i :: 0 <= i < r ==> g[i][col] != Empty
    ensures forall i :: 0 <= i < Rows ==> (g[i][col] != Empty <==> i < StackTop(g, col, r))
    decreases Rows - r
  {
    if r == Rows {
    } else if g[r][col] == Empty {
      // Gravity: nothing above an empty cell is occupied.
      forall i | r <= i < Rows
        ensures g[i][col] == Empty
      {
        EmptyBelowMeansEmpty(g, col, r, i);
      }
    } else {
      StackTopShape(g, col, r + 1);
    }
  }

  lemma {:induction false} EmptyBelowMeansEmpty(g: Cells, col: int, r: int, i: int)
    requires WellFormed(g) && Gravity(g) && 0 <= col < Cols && 0 <= r <= i < Rows
    requires g[r][col] == Empty
    ensures g[i][col] == Empty
    decreases i - r
  {
    if i > r {
      EmptyBelowMeansEmpty(g, col, r, i - 1);
      assert InRange(i, col) && g[i - 1][col] == Empty;
    }
  }

  /** Under gravity the occupied cells of a column are exactly the rows below its height. */
  lemma ColumnShape(g: Cells, col: int)
    requires WellFormed(g) && 0 <= col < Cols
    ensures 0 <= Height(g, col) <= Rows
    ensures Gravity(g) ==> forall i :: 0 <= i < Rows ==> (g[i][col] != Empty <==> i < Height(g, col))
  {
    if Gravity(g) {
      StackTopShape(g, col, 0);
    }
  }

  /** Under gravity a column has at most one available cell, the one at its height;
      it has one exactly when the column is not full. */
  lemma AvailableIsHeight(g: Cells, col: int)
    requires WellFormed(g) && 0 <= col < Cols
    ensures Gravity(g) ==> forall r :: Available(g, r, col) <==> r == Height(g, col) < Rows
    ensures Gravity(g) ==> (ColumnFull(g, col) <==> Height(g, col) == Rows)
    ensures Gravity(g) && !ColumnFull(g, col) ==> Available(g, Height(g, col), col)
  {
    ColumnShape(g, col);
  }

  lemma {:induction false} StackTopAvailable(g: Cells, col: int, r: int)
    requires WellFormed(g) && 0 <= col < Cols && 0 <= r < Rows && g[Rows - 1][col] == Empty
    requires r == 0 || g[r - 1][col] != Empty
    ensures StackTop(g, col, r) < Rows && Available(g, StackTop(g, col, r), col)
    decreases Rows - r
  {
    if g[r][col] != Empty {
      StackTopAvailable(g, col, r + 1);
    }
  }

  /** A column whose top cell is empty has an available cell, its lowest empty one,
      whether or not the board obeys gravity. */
  lemma OpenColumnAvailable(g: Cells, col: int)
    requires WellFormed(g) && 0 <= col < Cols && !ColumnFull(g, col)
    ensures Height(g, col) < Rows && Available(g, Height(g, col), col)
  {
    StackTopAvailable(g, col, 0);
  }

  /** Under gravity "every top cell occupied" is the same as "all 42 cells occupied". */
  lemma TieIsFull(g: Cells)
    requires WellFormed(g)
    ensures Gravity(g) ==> (Tie(g) <==> Full(g))
  {
    if Gravity(g) && Tie(g) {
      forall i, j | InRange(i, j)
        ensures g[i][j] != Empty
      {
        assert ColumnFull(g, j);
        ColumnShape(g, j);
      }
    }
  }

  // ---------------------------------------------------------------------------
  // Piece count

  /** The number of occupied cells among the first `n` of a row. */
  function RowPieces(row: seq<int>, n: int): int
    requires 0 <= n <= |row|
  {
    if n == 0 then 0 else RowPieces(row, n - 1) + (if row[n - 1] != Empty then 1 else 0)
  }

  /** The number of occupied cells in the first `n` rows. */
  function GridPieces(g: Cells, n: int): int
    requires WellFormed(g) && 0 <= n <= Rows
  {
    if n == 0 then 0 else GridPieces(g, n - 1) + RowPieces(g[n - 1], Cols)
  }

  /** The number of pieces on the board. */
  function Pieces(g: Cells): int
    requires WellFormed(g)
  {
    GridPieces(g, Rows)
  }

  lemma {:induction false} RowPiecesBound(row: seq<int>, n: int)
    requires 0 <= n <= |row|
    ensures 0 <= RowPieces(row, n) <= n
    ensures RowPieces(row, n) == n <==> forall j :: 0 <= j < n ==> row[j] != Empty
  {
    if n > 0 {
      RowPiecesBound(row, n - 1);
    }
  }

  lemma {:induction false} RowPiecesUpdate(row: seq<int>, n: int, k: int, who: int)
    requires 0 <= n <= |row| && 0 <= k < |row| && row[k] == Empty && who != Empty
    ensures RowPieces(row[k := who], n) == RowPieces(row, n) + (if k < n then 1 else 0)
  {
    if n > 0 {
      RowPiecesUpdate(row, n - 1, k, who);
    }
  }

  lemma {:induction false} GridPiecesBound(g: Cells, n: int)
    requires WellFormed(g) && 0 <= n <= Rows
    ensures 0 <= GridPieces(g, n) <= Cols * n
    ensures GridPieces(g, n) == Cols * n <==> forall i, j :: 0 <= i < n && 0 <= j < Cols ==> g[i][j] != Empty
  {
    if n > 0 {
      GridPiecesBound(g, n - 1);
      RowPiecesBound(g[n - 1], Cols);
      if GridPieces(g, n) == Cols * n {
        assert GridPieces(g, n - 1) == Cols * (n - 1) && RowPieces(g[n - 1], Cols) == Cols;
      }
    }
  }

  lemma {:induction false} GridPiecesUpdate(g: Cells, n: int, row: int, col: int, who: int)
    requires WellFormed(g) && 0 <= n <= Rows && InRange(row, col) && g[row][col] == Empty && who != Empty
    ensures GridPieces(Place(g, row, col, who), n) == GridPieces(g, n) + (if row < n then 1 else 0)
  {
    if n > 0 {
      GridPiecesUpdate(g, n - 1, row, col, who);
      var h := Place(g, row, col, who);
      if n - 1 == row {
        RowPiecesUpdate(g[row], Cols, col, who);
      } else {
        assert h[n - 1] == g[n - 1];
      }
    }
  }

  /** The board holds at most 42 pieces, and holds 42 exactly when it is full. */
  lemma PiecesBound(g: Cells)
    requires WellFormed(g)
    ensures 0 <= Pieces(g) <= Rows * Cols
    ensures Pieces(g) == Rows * Cols <==> Full(g)
  {
    GridPiecesBound(g, Rows);
  }

  /** A placement that lands adds exactly one piece. */
  lemma PlaceAddsOnePiece(g: Cells, row: int, col: int, who: int)
    requires WellFormed(g) && InRange(row, col) && g[row][col] == Empty && who != Empty
    ensures Pieces(Place(g, row, col, who)) == Pieces(g) + 1
  {
    GridPiecesUpdate(g, Rows, row, col, who);
  }

  /** The empty board has gravity, legal cells, and no pieces. */
  lemma EmptyCellsStart()
    ensures Legal(EmptyCells()) && Gravity(EmptyCells())
    ensures Pieces(EmptyCells()) == 0
  {
    var g := EmptyCells();
    GridPiecesBound(g, Rows);
    ZeroPieces(g, Rows);
  }

  lemma {:induction false} ZeroPieces(g: Cells, n: int)
    requires WellFormed(g) && 0 <= n <= Rows
    requires forall i, j :: InRange(i, j) ==> g[i][j] == Empty
    ensures GridPieces(g, n) == 0
  {
    if n > 0 {
      ZeroPieces(g, n - 1);
      ZeroRow(g[n - 1], Cols);
    }
  }

  lemma {:induction false} ZeroRow(row: seq<int>, n: int)
    requires 0 <= n <= |row|
    requires forall j :: 0 <= j < |row| ==> row[j] == Empty
    ensures RowPieces(row, n) == 0
  {
    if n > 0 {
      ZeroRow(row, n - 1);
    }
  }

  // ---------------------------------------------------------------------------
  // The cells of one owner

  /** The cells that hold `who`. */
  ghost function Owned(g: Cells, who: int): set<(int, int)>
    requires WellFormed(g)
  {
    set i, j | 0 <= i < Rows && 0 <= j < Cols && g[i][j] == who :: (i, j)
  }

  /** A placement on an empty cell gives its owner exactly one more cell and leaves
      every other owner's cells as they were. */
  lemma OwnedPlace(g: Cells, row: int, col: int, p: int, who: int)
    requires WellFormed(g) && InRange(row, col) && g[row][col] == Empty && p != Empty && who != Empty
    ensures Owned(Place(g, row, col, p), who) == if who == p then Owned(g, who) + {(row, col)} else Owned(g, who)
    ensures |Owned(Place(g, row, col, p), who)| == |Owned(g, who)| + (if who == p then 1 else 0)
  {
    var h := Place(g, row, col, p);
    assert (row, col) !in Owned(g, who);
    forall q | q in Owned(h, who)
      ensures q in Owned(g, who) || (who == p && q == (row, col))
    {
      var i, j :| 0 <= i < Rows && 0 <= j < Cols && h[i][j] == who && q == (i, j);
      if i != row || j != col {
        assert g[i][j] == who;
      }
    }
    forall q | q in Owned(g, who)
      ensures q in Owned(h, who)
    {
      var i, j :| 0 <= i < Rows && 0 <= j < Cols && g[i][j] == who && q == (i, j);
      assert h[i][j] == who;
    }
    if who == p {
      assert h[row][col] == who;
    }
  }

  /** The empty board gives no owner a cell. */
  lemma OwnedEmptyCells(who: int)
    requires who != Empty
    ensures Owned(EmptyCells(), who) == {}
  {
    var g := EmptyCells();
    assert forall i, j :: 0 <= i < Rows && 0 <= j < Cols ==> g[i][j] != who;
  }

  lemma SubsetCard<T>(a: set<T>, b: set<T>)
    requires a <= b
    ensures |a| <= |b|
  {
    assert b == a + (b - a);
    assert a * (b - a) == {};
  }

  /** Under gravity the cell above an available cell is empty. */
  lemma AboveAvailable(g: Cells, row: int, col: int)
    requires WellFormed(g) && Gravity(g) && Available(g, row, col)
    ensures row == Rows - 1 || g[row + 1][col] == Empty
  {
    if row < Rows - 1 {
      assert InRange(row + 1, col) && 0 < row + 1;
    }
  }
}
