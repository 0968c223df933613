/** The `Board` class of main.cpp: a 6x7 array of occupants with the queries,
    the write-once placements, the four-direction win detector and the CPU move. */
module ConnectFour {
  import opened Grid
  import opened Lines
  import Selector

  /** The source's `Space`: a cell's coordinates and who occupies it. */
  datatype Space = Space(row: int, col: int, who: int)

  class Board {
    /** `board[row, col]` is the occupant of that cell; row 0 is the bottom row. */
    const board: array2<int>

    /** The array is 6 x 7 and every cell holds 0, 1 or 2. */
    ghost predicate Valid()
      reads board
    {
      board.Length0 == Rows && board.Length1 == Cols && Legal(Contents())
    }

    /** The occupants as a value. */
    ghost function Contents(): (g: Cells)
      reads board
      requires board.Length0 == Rows && board.Length1 == Cols
      ensures WellFormed(g)
      ensures forall i, j :: 0 <= i < Rows && 0 <= j < Cols ==> g[i][j] == board[i, j]
    {
      seq(Rows, i requires 0 <= i < Rows reads board =>
        seq(Cols, j requires 0 <= j < Cols reads board => board[i, j]))
    }

    /** Every cell starts empty. */
    constructor ()
      ensures Valid() && fresh(board)
      ensures Contents() == EmptyCells()
    {
      var b := new int[Rows, Cols];
      for i := 0 to Rows
        invariant forall r, c :: 0 <= r < i && 0 <= c < Cols ==> b[r, c] == Empty
      {
        for j := 0 to Cols
          invariant forall r, c :: 0 <= r < i && 0 <= c < Cols ==> b[r, c] == Empty
          invariant forall c :: 0 <= c < j ==> b[i, c] == Empty
        {
          b[i, j] := Empty;
        }
      }
      board := b;
      new;
      SameCells(Contents(), EmptyCells());
    }

    /** `isSpaceOccupied`; an off-board cell is reported as not occupied. */
    function IsSpaceOccupied(row: int, col: int): (r: bool)
      reads board
      requires Valid()
      ensures r == Occupied(Contents(), row, col)
    {
      if row < 0 || row > 5 || col < 0 || col > 6 then false
      else board[row, col] != Empty
    }

    /** `isSpaceAvailable`. The final `false` is where the source prints "Error": an empty
        cell that is not on the bottom row and has an empty cell under it. */
    function IsSpaceAvailable(row: int, col: int): (r: bool)
      reads board
      requires Valid()
      ensures r == Available(Contents(), row, col)
    {
      if row < 0 || row > 5 || col < 0 || col > 6 || IsSpaceOccupied(row, col) then false
      else if row == 0 || (IsSpaceOccupied(row - 1, col) && !IsSpaceOccupied(row, col)) then true
      else false
    }

    /** `isColumnFull`: looks at the top cell only. */
    function IsColumnFull(col: int): (r: bool)
      reads board
      requires Valid() && 0 <= col < Cols
      ensures r == ColumnFull(Contents(), col)
      ensures Gravity(Contents()) ==> (r <==> forall i :: 0 <= i < Rows ==> board[i, col] != Empty)
    {
      ColumnShape(Contents(), col);
      board[5, col] != Empty
    }

    /** `playerOccupies`: marks the cell for the human if it is on the board and empty. */
    method PlayerOccupies(row: int, col: int)
      requires Valid()
      modifies board
      ensures Valid()
      ensures Contents() == Place(old(Contents()), row, col, Player)
    {
      // an off-board cell only prints "Invalid space"
      if 0 <= row <= 5 && 0 <= col <= 6 && board[row, col] == Empty {
        board[row, col] := Player;
      }
      SameCells(Contents(), Place(old(Contents()), row, col, Player));
    }

    /** `cpuOccupies`: marks the cell for the CPU if it is on the board and empty. */
    method CpuOccupies(row: int, col: int)
      requires Valid()
      modifies board
      ensures Valid()
      ensures Contents() == Place(old(Contents()), row, col, Cpu)
    {
      if 0 <= row <= 5 && 0 <= col <= 6 && board[row, col] == Empty {
        board[row, col] := Cpu;
      }
      SameCells(Contents(), Place(old(Contents()), row, col, Cpu));
    }

    /** `is4InARow`: the origin must belong to `who`; then any scanner may report a win. */
    method Is4InARow(row: int, col: int, who: int) returns (r: bool)
      requires Valid() && InRange(row, col)
      ensures r == WinAt(Contents(), row, col, who)
    {
      if board[row, col] != who {
        return false;
      }
      var found := VerticalCount(row, col, who);
      if !found {
        found := HorizontalCount(row, col, who);
      }
      if !found {
        found := DiagonalNegativeSlopeCount(row, col, who);
      }
      if !found {
        found := DiagonalPositiveSlopeCount(row, col, who);
      }
      return found;
    }

    /** `verticalCount`: walks down from the origin, stopping at the first other cell or
        as soon as three `who` cells are found. */
    method VerticalCount(row: int, col: int, who: int) returns (r: bool)
      requires Valid() && InRange(row, col)
      ensures r == VerticalWin(Contents(), row, col, who)
      ensures r <==> 3 <= row && board[row - 1, col] == who && board[row - 2, col] == who &&
                     board[row - 3, col] == who
    {
      ghost var g := Contents();
      VerticalWinBelow(g, row, col, who);
      var count := 0;
      var i := row - 1;
      while i > -1
        invariant -1 <= i < row
        invariant count == row - 1 - i < 3
        invariant Run(g, row, col, Down, who, row) == RunFrom(g, row, col, Down, who, row - i, row)
      {
        if board[i, col] == who {
          count := count + 1;
        } else {
          break;
        }
        if count == 3 {
          return true;
        }
        i := i - 1;
      }
      return false;
    }

    /** `horizontalCount`: walks left, then right, adding both runs into one counter. */
    method HorizontalCount(row: int, col: int, who: int) returns (r: bool)
      requires Valid() && InRange(row, col)
      ensures r == HorizontalWin(Contents(), row, col, who)
    {
      ghost var g := Contents();
      var count := 0;
      var i := col - 1;
      while i > -1
        invariant -1 <= i < col
        invariant count == col - 1 - i < 3
        invariant forall j :: 1 <= j <= count ==> Owns(g, Step(Left, row, col, j), who)
      {
        assert Step(Left, row, col, count + 1) == (row, i);
        if board[row, i] == who {
          count := count + 1;
        } else {
          break;
        }
        if count == 3 {
          RunAtLeast(g, row, col, Left, who, 3, col);
          return true;
        }
        i := i - 1;
      }
      ghost var left := count;
      RunExact(g, row, col, Left, who, left, col);
      i := col + 1;
      while i < 7
        invariant col < i <= Cols
        invariant count == left + (i - col - 1) < 3
        invariant forall j :: 1 <= j <= count - left ==> Owns(g, Step(Right, row, col, j), who)
      {
        assert Step(Right, row, col, count - left + 1) == (row, i);
        if board[row, i] == who {
          count := count + 1;
        } else {
          break;
        }
        if count == 3 {
          RunAtLeast(g, row, col, Right, who, count - left, Cols - 1 - col);
          return true;
        }
        i := i + 1;
      }
      RunExact(g, row, col, Right, who, count - left, Cols - 1 - col);
      return false;
    }

    /** `diagonalNegativeSlopeCount`: walks up-left `lesser` cells, then down-right `greater`
        cells, with one counter; the clamps keep every read on the board. */
    method DiagonalNegativeSlopeCount(row: int, col: int, who: int) returns (r: bool)
      requires Valid() && InRange(row, col)
      ensures r == NegativeSlopeWin(Contents(), row, col, who)
    {
      ghost var g := Contents();
      var count := 0;
      var bounds := NegativeSlopeBounds(row, col);
      NegativeSlopeStaysOnBoard(row, col);
      var lesser, greater := bounds.0, bounds.1;
      var i := 0;
      while i < lesser
        invariant 0 <= i <= lesser
        invariant count == i < 3
        invariant forall j :: 1 <= j <= i ==> Owns(g, Step(UpLeft, row, col, j), who)
      {
        assert Step(UpLeft, row, col, i + 1) == (row + (i + 1), col - (i + 1)) && InRange(row + (i + 1), col - (i + 1));
        assert g[row + (i + 1)][col - (i + 1)] == board[row + (i + 1), col - (i + 1)];
        if board[row + (i + 1), col - (i + 1)] == who {
          count := count + 1;
        } else {
          break;
        }
        if count == 3 {
          RunAtLeast(g, row, col, UpLeft, who, 3, lesser);
          return true;
        }
        i := i + 1;
      }
      ghost var first := count;
      RunExact(g, row, col, UpLeft, who, first, lesser);
      i := 0;
      while i < greater
        invariant 0 <= i <= greater
        invariant count == first + i < 3
        invariant forall j :: 1 <= j <= i ==> Owns(g, Step(DownRight, row, col, j), who)
      {
        assert Step(DownRight, row, col, i + 1) == (row - (i + 1), col + (i + 1)) && InRange(row - (i + 1), col + (i + 1));
        assert g[row - (i + 1)][col + (i + 1)] == board[row - (i + 1), col + (i + 1)];
        if board[row - (i + 1), col + (i + 1)] == who {
          count := count + 1;
        } else {
          break;
        }
        if count == 3 {
          RunAtLeast(g, row, col, DownRight, who, i + 1, greater);
          return true;
        }
        i := i + 1;
      }
      RunExact(g, row, col, DownRight, who, i, greater);
      return false;
    }

    /** `diagonalPositiveSlopeCount` with the corrected `greater` (see `Lines.PositiveSlopeBounds`):
        walks down-left `lesser` cells, then up-right `greater` cells, with one counter. */
    method DiagonalPositiveSlopeCount(row: int, col: int, who: int) returns (r: bool)
      requires Valid() && InRange(row, col)
      ensures r == PositiveSlopeWin(Contents(), row, col, who)
    {
      ghost var g := Contents();
      var count := 0;
      var bounds := PositiveSlopeBounds(row, col);
      PositiveSlopeStaysOnBoard(row, col);
      var lesser, greater := bounds.0, bounds.1;
      var i := 1;
      while i < lesser + 1
        invariant 1 <= i <= lesser + 1
        invariant count == i - 1 < 3
        invariant forall j :: 1 <= j < i ==> Owns(g, Step(DownLeft, row, col, j), who)
      {
        assert Step(DownLeft, row, col, i) == (row - i, col - i) && InRange(row - i, col - i);
        assert g[row - i][col - i] == board[row - i, col - i];
        if board[row - i, col - i] == who {
          count := count + 1;
        } else {
          break;
        }
        if count == 3 {
          RunAtLeast(g, row, col, DownLeft, who, 3, lesser);
          return true;
        }
        i := i + 1;
      }
      ghost var first := count;
      RunExact(g, row, col, DownLeft, who, first, lesser);
      i := 1;
      while i < greater + 1
        invariant 1 <= i <= greater + 1
        invariant count == first + i - 1 < 3
        invariant forall j :: 1 <= j < i ==> Owns(g, Step(UpRight, row, col, j), who)
      {
        assert Step(UpRight, row, col, i) == (row + i, col + i) && InRange(row + i, col + i);
        assert g[row + i][col + i] == board[row + i, col + i];
        if board[row + i, col + i] == who {
          count := count + 1;
        } else {
          break;
        }
        if count == 3 {
          RunAtLeast(g, row, col, UpRight, who, i, greater);
          return true;
        }
        i := i + 1;
      }
      RunExact(g, row, col, UpRight, who, i - 1, greater);
      return false;
    }

    /** `availableRowInCol`: the lowest available cell of the column, or -1 when it has none. */
    method AvailableRowInCol(col: int) returns (r: int)
      requires Valid()
      ensures -1 <= r < Rows
      ensures r == -1 <==> forall i :: 0 <= i < Rows ==> !Available(Contents(), i, col)
      ensures r != -1 ==> Available(Contents(), r, col) && forall i :: 0 <= i < r ==> !Available(Contents(), i, col)
      ensures Gravity(Contents()) && 0 <= col < Cols && !ColumnFull(Contents(), col) ==> r == Height(Contents(), col)
    {
      if 0 <= col < Cols {
        AvailableIsHeight(Contents(), col);
      }
      var i := 0;
      while i < 6
        invariant 0 <= i <= Rows
        invariant forall k :: 0 <= k < i ==> !Available(Contents(), k, col)
      {
        if IsSpaceAvailable(i, col) {
          return i;
        }
        i := i + 1;
      }
      return -1;
    }

    /** `isTieState`: true when no column's top cell is empty. */
    method IsTieState() returns (r: bool)
      requires Valid()
      ensures r == Tie(Contents())
      ensures Gravity(Contents()) ==> (r <==> Full(Contents()))
    {
      TieIsFull(Contents());
      var i := 0;
      while i < 7
        invariant 0 <= i <= Cols
        invariant forall c :: 0 <= c < i ==> ColumnFull(Contents(), c)
      {
        var full := IsColumnFull(i);
        if !full {
          return false;
        }
        i := i + 1;
      }
      return true;
    }

    /** `decideRobotMove`: choose a column from the draws, move right (wrapping) past full
        columns, then mark the column's lowest available cell for the CPU. The human's
        last column is on the board and some column has room: otherwise the source's
        search would never stop. */
    method DecideRobotMove(mostRecentPlayerMoveCol: int, draw: nat, coin: nat) returns (s: Space)
      requires Valid()
      requires 0 <= mostRecentPlayerMoveCol < Cols
      requires !Tie(Contents())
      modifies board
      ensures Valid()
      ensures s.who == Cpu
      ensures s.col == FirstOpenColumn(old(Contents()), Selector.ChooseColumn(mostRecentPlayerMoveCol, draw, coin))
      ensures 0 <= s.col < Cols && !ColumnFull(old(Contents()), s.col)
      ensures 0 <= s.row < Rows && Available(old(Contents()), s.row, s.col)
      ensures forall i :: 0 <= i < s.row ==> !Available(old(Contents()), i, s.col)
      ensures Contents() == Place(old(Contents()), s.row, s.col, Cpu)
      ensures Gravity(old(Contents())) ==> s.row == Height(old(Contents()), s.col) && Gravity(Contents())
    {
      ghost var g := Contents();
      var chosenCol := Selector.ChooseColumn(mostRecentPlayerMoveCol, draw, coin);
      ghost var start := chosenCol;
      ghost var steps := 0;
      FirstOpenColumnIsOpen(g, start);
      while IsColumnFull(chosenCol)
        invariant 0 <= chosenCol < Cols && 0 <= steps < Cols
        invariant FirstOpenColumn(g, start) == OpenFrom(g, chosenCol, Cols - 1 - steps)
        decreases Cols - steps
      {
        chosenCol := (chosenCol + 1) % 7;
        steps := steps + 1;
      }
      var chosenRow := AvailableRowInCol(chosenCol);
      OpenColumnAvailable(g, chosenCol);
      AvailableIsHeight(g, chosenCol);
      if Gravity(g) {
        PlaceAvailableKeepsGravity(g, chosenRow, chosenCol, Cpu);
      }
      CpuOccupies(chosenRow, chosenCol);
      return Space(chosenRow, chosenCol, Cpu);
    }
  }

  /** The column `k` places to the right of `col`, wrapping from 6 to 0. */
  function RightOf(col: int, k: int): int {
    (col + k) % 7
  }

  /** The column the fallback search stops at, starting from `col` and allowed `n` more
      moves to the right. */
  function OpenFrom(g: Cells, col: int, n: nat): (c: int)
    requires WellFormed(g) && 0 <= col < Cols
    ensures 0 <= c < Cols
    decreases n
  {
    if n == 0 || !ColumnFull(g, col) then col else OpenFrom(g, RightOf(col, 1), n - 1)
  }

  /** The first column, from `col` rightwards around the wrap, whose top cell is empty. */
  function FirstOpenColumn(g: Cells, col: int): int
    requires WellFormed(g) && 0 <= col < Cols
  {
    OpenFrom(g, col, Cols - 1)
  }

  lemma RightOfNext(col: int, k: int)
    requires 0 <= col < Cols && 0 <= k
    ensures RightOf(RightOf(col, 1), k) == RightOf(col, k + 1)
  {
  }

  /** Every column is some number of places to the right of `col`. */
  lemma RightOfReaches(col: int, c: int)
    requires 0 <= col < Cols && 0 <= c < Cols
    ensures RightOf(col, if c >= col then c - col else c - col + 7) == c
  {
  }

  /** If the search ends at a full column, every column it looked at is full. */
  lemma {:induction false} OpenFromVisits(g: Cells, col: int, n: nat)
    requires WellFormed(g) && 0 <= col < Cols
    ensures ColumnFull(g, OpenFrom(g, col, n)) ==> forall k :: 0 <= k <= n ==> ColumnFull(g, RightOf(col, k))
    decreases n
  {
    assert RightOf(col, 0) == col;
    if n > 0 {
      OpenFromVisits(g, RightOf(col, 1), n - 1);
      forall k | 1 <= k <= n
        ensures RightOf(RightOf(col, 1), k - 1) == RightOf(col, k)
      {
        RightOfNext(col, k - 1);
      }
    }
  }

  /** When some column has room, the fallback search ends at a column with room. */
  lemma FirstOpenColumnIsOpen(g: Cells, col: int)
    requires WellFormed(g) && 0 <= col < Cols && !Tie(g)
    ensures !ColumnFull(g, FirstOpenColumn(g, col))
  {
    var c :| 0 <= c < Cols && !ColumnFull(g, c);
    RightOfReaches(col, c);
    OpenFromVisits(g, col, Cols - 1);
  }

  /** The fallback search is circular and takes the nearest column with room: every
      column it passes over on the way is full. */
  lemma FirstOpenColumnIsNearest(g: Cells, col: int)
    requires WellFormed(g) && 0 <= col < Cols
    ensures exists k :: 0 <= k < Cols && FirstOpenColumn(g, col) == RightOf(col, k) &&
              forall j :: 0 <= j < k ==> ColumnFull(g, RightOf(col, j))
  {
    NearestFrom(g, col, Cols - 1);
  }

  lemma {:induction false} NearestFrom(g: Cells, col: int, n: nat)
    requires WellFormed(g) && 0 <= col < Cols
    ensures exists k :: 0 <= k <= n && OpenFrom(g, col, n) == RightOf(col, k) &&
              forall j :: 0 <= j < k ==> ColumnFull(g, RightOf(col, j))
    decreases n
  {
    if n == 0 || !ColumnFull(g, col) {
      assert OpenFrom(g, col, n) == RightOf(col, 0);
    } else {
      NearestFrom(g, RightOf(col, 1), n - 1);
      var k :| 0 <= k <= n - 1 && OpenFrom(g, RightOf(col, 1), n - 1) == RightOf(RightOf(col, 1), k) &&
               forall j :: 0 <= j < k ==> ColumnFull(g, RightOf(RightOf(col, 1), j));
      RightOfNext(col, k);
      forall j | 0 <= j < k + 1
        ensures ColumnFull(g, RightOf(col, j))
      {
        if j > 0 {
          RightOfNext(col, j - 1);
        } else {
          assert RightOf(col, 0) == col;
        }
      }
      assert OpenFrom(g, col, n) == RightOf(col, k + 1);
    }
  }
}
