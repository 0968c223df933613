/** The lines a four-in-a-row can lie on, the runs of equal occupants the win
    detector of main.cpp counts along them, and the edge clamps it uses. */
module Lines {
  import opened Grid

  /** The eight compass directions on the board; "up" is towards row 5. */
  datatype Dir = Up | Down | Left | Right | UpLeft | UpRight | DownLeft | DownRight

  /** The cell `k` steps from (row, col) along `d` (a negative `k` walks backwards). */
  function Step(d: Dir, row: int, col: int, k: int): (int, int) {
    match d
    case Up => (row + k, col)
    case Down => (row - k, col)
    case Left => (row, col - k)
    case Right => (row, col + k)
    case UpLeft => (row + k, col - k)
    case UpRight => (row + k, col + k)
    case DownLeft => (row - k, col - k)
    case DownRight => (row - k, col + k)
  }

  function Opposite(d: Dir): Dir {
    match d
    case Up => Down
    case Down => Up
    case Left => Right
    case Right => Left
    case UpLeft => DownRight
    case UpRight => DownLeft
    case DownLeft => UpRight
    case DownRight => UpLeft
  }

  lemma StepBackwards(d: Dir, row: int, col: int, k: int)
    ensures Step(d, row, col, -k) == Step(Opposite(d), row, col, k)
  {
  }

  /** The cell `p` is on the board and belongs to `who`. */
  predicate Owns(g: Cells, p: (int, int), who: int)
    requires WellFormed(g)
  {
    InRange(p.0, p.1) && g[p.0][p.1] == who
  }

  // ---------------------------------------------------------------------------
  // Runs

  /** Walking from step `k` to step `steps` along `d`, the last step before the
      first cell that is off the board or not owned by `who`. */
  function RunFrom(g: Cells, row: int, col: int, d: Dir, who: int, k: nat, steps: nat): (n: nat)
    requires WellFormed(g) && 1 <= k
    ensures k - 1 <= n
    ensures k <= steps + 1 ==> n <= steps
    decreases steps + 1 - k
  {
    if k > steps || !Owns(g, Step(d, row, col, k), who) then k - 1
    else RunFrom(g, row, col, d, who, k + 1, steps)
  }

  /** The length of the run of `who`-owned cells that starts next to (row, col)
      along `d`, looking at most `steps` cells far. */
  function Run(g: Cells, row: int, col: int, d: Dir, who: int, steps: nat): (n: nat)
    requires WellFormed(g)
    ensures n <= steps
  {
    RunFrom(g, row, col, d, who, 1, steps)
  }

  lemma {:induction false} RunFromOwned(g: Cells, row: int, col: int, d: Dir, who: int, k: nat, steps: nat)
    requires WellFormed(g) && 1 <= k
    ensures forall j :: k <= j <= RunFrom(g, row, col, d, who, k, steps) ==> Owns(g, Step(d, row, col, j), who)
    decreases steps + 1 - k
  {
    if !(k > steps || !Owns(g, Step(d, row, col, k), who)) {
      RunFromOwned(g, row, col, d, who, k + 1, steps);
    }
  }

  /** Every cell of a run is owned. */
  lemma RunOwned(g: Cells, row: int, col: int, d: Dir, who: int, steps: nat)
    requires WellFormed(g)
    ensures forall j :: 1 <= j <= Run(g, row, col, d, who, steps) ==> Owns(g, Step(d, row, col, j), who)
  {
    RunFromOwned(g, row, col, d, who, 1, steps);
  }

  lemma {:induction false} RunFromAtLeast(g: Cells, row: int, col: int, d: Dir, who: int, k: nat, m: nat, steps: nat)
    requires WellFormed(g) && 1 <= k && m <= steps
    requires forall j :: k <= j <= m ==> Owns(g, Step(d, row, col, j), who)
    ensures m <= RunFrom(g, row, col, d, who, k, steps)
    decreases steps + 1 - k
  {
    if k <= m {
      RunFromAtLeast(g, row, col, d, who, k + 1, m, steps);
    }
  }

  /** `m` owned cells in a row, within the look-ahead, make a run of at least `m`. */
  lemma RunAtLeast(g: Cells, row: int, col: int, d: Dir, who: int, m: nat, steps: nat)
    requires WellFormed(g) && m <= steps
    requires forall j :: 1 <= j <= m ==> Owns(g, Step(d, row, col, j), who)
    ensures m <= Run(g, row, col, d, who, steps)
  {
    RunFromAtLeast(g, row, col, d, who, 1, m, steps);
  }

  lemma {:induction false} RunFromExact(g: Cells, row: int, col: int, d: Dir, who: int, k: nat, n: nat, steps: nat)
    requires WellFormed(g) && 1 <= k <= n + 1 && n <= steps
    requires forall j :: k <= j <= n ==> Owns(g, Step(d, row, col, j), who)
    requires n == steps || !Owns(g, Step(d, row, col, n + 1), who)
    ensures RunFrom(g, row, col, d, who, k, steps) == n
    decreases n + 1 - k
  {
    if k <= n {
      RunFromExact(g, row, col, d, who, k + 1, n, steps);
    }
  }

  /** A walk that found `n` owned cells and then reached its limit or a cell it does not
      own has found the whole run. */
  lemma RunExact(g: Cells, row: int, col: int, d: Dir, who: int, n: nat, steps: nat)
    requires WellFormed(g) && n <= steps
    requires forall j :: 1 <= j <= n ==> Owns(g, Step(d, row, col, j), who)
    requires n == steps || !Owns(g, Step(d, row, col, n + 1), who)
    ensures Run(g, row, col, d, who, steps) == n
  {
    RunFromExact(g, row, col, d, who, 1, n, steps);
  }

  lemma {:induction false} RunFromStops(g: Cells, row: int, col: int, d: Dir, who: int, k: nat, steps: nat)
    requires WellFormed(g) && 1 <= k <= steps + 1
    ensures RunFrom(g, row, col, d, who, k, steps) < steps ==>
              !Owns(g, Step(d, row, col, RunFrom(g, row, col, d, who, k, steps) + 1), who)
    decreases steps + 1 - k
  {
    if k <= steps && Owns(g, Step(d, row, col, k), who) {
      RunFromStops(g, row, col, d, who, k + 1, steps);
    }
  }

  /** A run shorter than its look-ahead ended at a cell that `who` does not own. */
  lemma RunStops(g: Cells, row: int, col: int, d: Dir, who: int, steps: nat)
    requires WellFormed(g)
    ensures Run(g, row, col, d, who, steps) < steps ==>
              !Owns(g, Step(d, row, col, Run(g, row, col, d, who, steps) + 1), who)
  {
    RunFromStops(g, row, col, d, who, 1, steps);
  }

  /** Looking further than `e` steps changes nothing when step `e + 1` is off the board. */
  lemma RunToEdge(g: Cells, row: int, col: int, d: Dir, who: int, e: nat, steps: nat)
    requires WellFormed(g) && e <= steps
    requires !InRange(Step(d, row, col, e + 1).0, Step(d, row, col, e + 1).1)
    ensures Run(g, row, col, d, who, steps) == Run(g, row, col, d, who, e)
  {
    var n := Run(g, row, col, d, who, e);
    RunOwned(g, row, col, d, who, e);
    RunStops(g, row, col, d, who, e);
    RunExact(g, row, col, d, who, n, steps);
  }

  /** A longer look-ahead never shortens a run. */
  lemma RunGrows(g: Cells, row: int, col: int, d: Dir, who: int, e: nat, steps: nat)
    requires WellFormed(g) && e <= steps
    ensures Run(g, row, col, d, who, e) <= Run(g, row, col, d, who, steps)
  {
    RunOwned(g, row, col, d, who, e);
    RunAtLeast(g, row, col, d, who, Run(g, row, col, d, who, e), steps);
  }

  // ---------------------------------------------------------------------------
  // Edge clamps of the diagonal scanners

  function Min(a: int, b: int): int {
    if a < b then a else b
  }

  /** `lesser` and `greater` of `diagonalNegativeSlopeCount`, computed by its three branches:
      how far the up-left and the down-right walks may go. */
  function NegativeSlopeBounds(row: int, col: int): (b: (int, int))
    requires InRange(row, col)
    ensures b.0 == Min(Rows - 1 - row, col) && b.1 == Min(row, Cols - 1 - col)
  {
    if 6 - row < col then (5 - row, 6 - col)
    else if 6 - row == col then (5 - row, 6 - col)
    else (col, row)
  }

  /** The negative-slope walks read only cells of the board, and each walk goes as far as
      the edge: one more step would leave the board. */
  lemma NegativeSlopeStaysOnBoard(row: int, col: int)
    requires InRange(row, col)
    ensures forall k :: 1 <= k <= NegativeSlopeBounds(row, col).0 ==>
              InRange(Step(UpLeft, row, col, k).0, Step(UpLeft, row, col, k).1)
    ensures forall k :: 1 <= k <= NegativeSlopeBounds(row, col).1 ==>
              InRange(Step(DownRight, row, col, k).0, Step(DownRight, row, col, k).1)
    ensures !InRange(Step(UpLeft, row, col, NegativeSlopeBounds(row, col).0 + 1).0,
                     Step(UpLeft, row, col, NegativeSlopeBounds(row, col).0 + 1).1)
    ensures !InRange(Step(DownRight, row, col, NegativeSlopeBounds(row, col).1 + 1).0,
                     Step(DownRight, row, col, NegativeSlopeBounds(row, col).1 + 1).1)
  {
  }

  /** `lesser` and `greater` of `diagonalPositiveSlopeCount` as the source computes them. */
  function PositiveSlopeBoundsAsWritten(row: int, col: int): (b: (int, int))
    requires InRange(row, col)
    ensures b.0 == Min(row, col)
  {
    if row < col then (row, 5 - row)
    else if row == col then (col, 5 - row)
    else (col, row)
  }

  /** The evidently intended bounds of `diagonalPositiveSlopeCount`: `lesser` as the source
      computes it, and `greater` clamped by the distance to the top row and to the right column. */
  function PositiveSlopeBounds(row: int, col: int): (b: (int, int))
    requires InRange(row, col)
    ensures b.0 == Min(row, col) && b.1 == Min(Rows - 1 - row, Cols - 1 - col)
  {
    (if row < col then row else col, Min(5 - row, 6 - col))
  }

  /** With the corrected bounds the positive-slope walks read only cells of the board, and
      each walk goes as far as the edge. */
  lemma PositiveSlopeStaysOnBoard(row: int, col: int)
    requires InRange(row, col)
    ensures forall k :: 1 <= k <= PositiveSlopeBounds(row, col).0 ==>
              InRange(Step(DownLeft, row, col, k).0, Step(DownLeft, row, col, k).1)
    ensures forall k :: 1 <= k <= PositiveSlopeBounds(row, col).1 ==>
              InRange(Step(UpRight, row, col, k).0, Step(UpRight, row, col, k).1)
    ensures !InRange(Step(DownLeft, row, col, PositiveSlopeBounds(row, col).0 + 1).0,
                     Step(DownLeft, row, col, PositiveSlopeBounds(row, col).0 + 1).1)
    ensures !InRange(Step(UpRight, row, col, PositiveSlopeBounds(row, col).1 + 1).0,
                     Step(UpRight, row, col, PositiveSlopeBounds(row, col).1 + 1).1)
  {
  }

  /** The source's `greater` agrees with the edge exactly on the main diagonal and the one
      just right of it; it walks off the top of the board when `row + 1 < col` or when
      `col < row` with `row >= 3`, and stops short of the edge when `col < row <= 2`. */
  lemma PositiveSlopeAsWrittenVersusEdge(row: int, col: int)
    requires InRange(row, col)
    ensures PositiveSlopeBoundsAsWritten(row, col).1 > PositiveSlopeBounds(row, col).1
            <==> row + 1 < col || (col < row && 3 <= row)
    ensures PositiveSlopeBoundsAsWritten(row, col).1 < PositiveSlopeBounds(row, col).1
            <==> col < row <= 2
  {
  }

  /** From origin (5, 0) the source's top-right walk is allowed 5 steps although the
      origin is on the top row: its first read is cell (6, 1), outside the board. */
  lemma PositiveSlopeOverrun()
    ensures PositiveSlopeBoundsAsWritten(5, 0) == (0, 5)
    ensures !InRange(5 + 1, 0 + 1)
    ensures PositiveSlopeBounds(5, 0) == (0, 0)
  {
  }

  // ---------------------------------------------------------------------------
  // The four scanners and the detector

  /** `verticalCount`: three `who` cells straight below the origin. */
  predicate VerticalWin(g: Cells, row: int, col: int, who: int)
    requires WellFormed(g) && InRange(row, col)
  {
    Run(g, row, col, Down, who, row) >= 3
  }

  /** A vertical win is exactly three `who` cells straight below the origin. */
  lemma VerticalWinBelow(g: Cells, row: int, col: int, who: int)
    requires WellFormed(g) && InRange(row, col)
    ensures VerticalWin(g, row, col, who) <==>
              3 <= row && g[row - 1][col] == who && g[row - 2][col] == who && g[row - 3][col] == who
  {
    if VerticalWin(g, row, col, who) {
      RunOwned(g, row, col, Down, who, row);
      assert Owns(g, Step(Down, row, col, 1), who);
      assert Owns(g, Step(Down, row, col, 2), who);
      assert Owns(g, Step(Down, row, col, 3), who);
    }
    if 3 <= row && g[row - 1][col] == who && g[row - 2][col] == who && g[row - 3][col] == who {
      forall j | 1 <= j <= 3
        ensures Owns(g, Step(Down, row, col, j), who)
      {
        assert j == 1 || j == 2 || j == 3;
      }
      RunAtLeast(g, row, col, Down, who, 3, row);
    }
  }

  /** `horizontalCount`: the left run and the right run share one counter. */
  predicate HorizontalWin(g: Cells, row: int, col: int, who: int)
    requires WellFormed(g) && InRange(row, col)
  {
    Run(g, row, col, Left, who, col) + Run(g, row, col, Right, who, Cols - 1 - col) >= 3
  }

  /** `diagonalNegativeSlopeCount`: up-left then down-right, one counter. */
  predicate NegativeSlopeWin(g: Cells, row: int, col: int, who: int)
    requires WellFormed(g) && InRange(row, col)
  {
    var b := NegativeSlopeBounds(row, col);
    Run(g, row, col, UpLeft, who, b.0) + Run(g, row, col, DownRight, who, b.1) >= 3
  }

  /** `diagonalPositiveSlopeCount` with the corrected `greater`: down-left then up-right, one counter. */
  predicate PositiveSlopeWin(g: Cells, row: int, col: int, who: int)
    requires WellFormed(g) && InRange(row, col)
  {
    var b := PositiveSlopeBounds(row, col);
    Run(g, row, col, DownLeft, who, b.0) + Run(g, row, col, UpRight, who, b.1) >= 3
  }

  /** `diagonalPositiveSlopeCount` with the source's `greater`. Where that bound runs past the
      edge, the source reads outside the array; here an off-board cell ends the walk instead. */
  predicate PositiveSlopeWinAsWritten(g: Cells, row: int, col: int, who: int)
    requires WellFormed(g) && InRange(row, col)
  {
    var b := PositiveSlopeBoundsAsWritten(row, col);
    Run(g, row, col, DownLeft, who, b.0) + Run(g, row, col, UpRight, who, b.1) >= 3
  }

  /** `is4InARow`: the origin belongs to `who` and one of the four scanners finds three more. */
  predicate WinAt(g: Cells, row: int, col: int, who: int)
    requires WellFormed(g) && InRange(row, col)
  {
    g[row][col] == who &&
    (VerticalWin(g, row, col, who) || HorizontalWin(g, row, col, who) ||
     NegativeSlopeWin(g, row, col, who) || PositiveSlopeWin(g, row, col, who))
  }

  /** `is4InARow` with the source's positive-slope bounds. */
  predicate WinAtAsWritten(g: Cells, row: int, col: int, who: int)
    requires WellFormed(g) && InRange(row, col)
  {
    g[row][col] == who &&
    (VerticalWin(g, row, col, who) || HorizontalWin(g, row, col, who) ||
     NegativeSlopeWin(g, row, col, who) || PositiveSlopeWinAsWritten(g, row, col, who))
  }

  /** The corrected positive-slope scanner reports every win the source's reports, and the
      two differ only at the origins (1, 0), (2, 0) and (2, 1), where the source stops short
      of the edge. Where the source's `greater` runs past the edge, ending the walk at the
      edge gives the same count. */
  lemma PositiveSlopeAsWrittenVersusCorrected(g: Cells, row: int, col: int, who: int)
    requires WellFormed(g) && InRange(row, col)
    ensures PositiveSlopeWinAsWritten(g, row, col, who) ==> PositiveSlopeWin(g, row, col, who)
    ensures !(col < row <= 2) ==> (PositiveSlopeWinAsWritten(g, row, col, who) <==> PositiveSlopeWin(g, row, col, who))
    ensures WinAtAsWritten(g, row, col, who) ==> WinAt(g, row, col, who)
    ensures !(col < row <= 2) ==> (WinAtAsWritten(g, row, col, who) <==> WinAt(g, row, col, who))
  {
    var written := PositiveSlopeBoundsAsWritten(row, col).1;
    var edge := PositiveSlopeBounds(row, col).1;
    PositiveSlopeAsWrittenVersusEdge(row, col);
    PositiveSlopeStaysOnBoard(row, col);
    if col < row <= 2 {
      RunGrows(g, row, col, UpRight, who, written, edge);
    } else {
      RunToEdge(g, row, col, UpRight, who, edge, written);
    }
  }

  // ---------------------------------------------------------------------------
  // Independent meaning: four in a line through the origin

  /** The four cells along `d` that start `s` steps behind (row, col) all belong to `who`. */
  predicate LineAt(g: Cells, d: Dir, row: int, col: int, s: int, who: int)
    requires WellFormed(g)
  {
    forall j :: -s <= j <= 3 - s ==> Owns(g, Step(d, row, col, j), who)
  }

  /** The four line directions: vertical, horizontal, and the two diagonals. */
  predicate IsAxis(d: Dir) {
    d == Up || d == Right || d == DownRight || d == UpRight
  }

  /** Four `who` cells in one line that passes through (row, col). */
  ghost predicate FourThrough(g: Cells, row: int, col: int, who: int)
    requires WellFormed(g)
  {
    exists d: Dir, s: int :: IsAxis(d) && 0 <= s <= 3 && LineAt(g, d, row, col, s, who)
  }

  /** Runs of `a` cells backwards and `b` cells forwards along `d` from an owned origin,
      with `a + b == 3`, form four in a line. */
  lemma LineFromRuns(g: Cells, d: Dir, row: int, col: int, who: int, a: nat, b: nat)
    requires WellFormed(g) && Owns(g, (row, col), who) && a + b == 3
    requires forall j :: 1 <= j <= a ==> Owns(g, Step(Opposite(d), row, col, j), who)
    requires forall j :: 1 <= j <= b ==> Owns(g, Step(d, row, col, j), who)
    ensures LineAt(g, d, row, col, a, who)
  {
    forall j: int | -(a as int) <= j <= 3 - a
      ensures Owns(g, Step(d, row, col, j), who)
    {
      if j < 0 {
        StepBackwards(d, row, col, -j);
      } else if j == 0 {
        assert Step(d, row, col, 0) == (row, col);
      }
    }
  }

  /** Two runs along opposite directions from an owned origin that add up to three or more
      give four in the line through the origin. */
  lemma RunsMakeLine(g: Cells, d: Dir, row: int, col: int, who: int, sa: nat, sb: nat)
    requires WellFormed(g) && Owns(g, (row, col), who) && IsAxis(d)
    requires Run(g, row, col, Opposite(d), who, sa) + Run(g, row, col, d, who, sb) >= 3
    ensures FourThrough(g, row, col, who)
  {
    var a := Min(Run(g, row, col, Opposite(d), who, sa), 3);
    RunOwned(g, row, col, Opposite(d), who, sa);
    RunOwned(g, row, col, d, who, sb);
    LineFromRuns(g, d, row, col, who, a, 3 - a);
  }

  /** Soundness of the detector: a reported win is four in a line through the origin.
      A vertical win is the origin and the three cells directly below it. */
  lemma WinAtSound(g: Cells, row: int, col: int, who: int)
    requires WellFormed(g) && InRange(row, col) && WinAt(g, row, col, who)
    ensures FourThrough(g, row, col, who)
    ensures VerticalWin(g, row, col, who) ==>
              g[row - 1][col] == who && g[row - 2][col] == who && g[row - 3][col] == who
  {
    var b1 := NegativeSlopeBounds(row, col);
    var b2 := PositiveSlopeBounds(row, col);
    if VerticalWin(g, row, col, who) {
      RunOwned(g, row, col, Down, who, row);
      assert Owns(g, Step(Down, row, col, 1), who) && Owns(g, Step(Down, row, col, 2), who) && Owns(g, Step(Down, row, col, 3), who);
      RunsMakeLine(g, Up, row, col, who, row, 0);
    } else if HorizontalWin(g, row, col, who) {
      RunsMakeLine(g, Right, row, col, who, col, Cols - 1 - col);
    } else if NegativeSlopeWin(g, row, col, who) {
      RunsMakeLine(g, DownRight, row, col, who, b1.0, b1.1);
    } else {
      RunsMakeLine(g, UpRight, row, col, who, b2.0, b2.1);
    }
  }

  /** Four in a line along `d`, starting `s` behind the origin, gives runs of `s` backwards
      and `3 - s` forwards. */
  lemma LineGivesRuns(g: Cells, d: Dir, row: int, col: int, s: int, who: int)
    requires WellFormed(g) && 0 <= s <= 3 && LineAt(g, d, row, col, s, who)
    ensures forall j :: 1 <= j <= s ==> Owns(g, Step(Opposite(d), row, col, j), who)
    ensures forall j :: 1 <= j <= 3 - s ==> Owns(g, Step(d, row, col, j), who)
    ensures Owns(g, (row, col), who)
    ensures Owns(g, Step(d, row, col, -s), who) && Owns(g, Step(d, row, col, 3 - s), who)
  {
    forall j | 1 <= j <= s
      ensures Owns(g, Step(Opposite(d), row, col, j), who)
    {
      StepBackwards(d, row, col, j);
      assert Owns(g, Step(d, row, col, -j), who);
    }
    assert Step(d, row, col, 0) == (row, col);
    assert Owns(g, Step(d, row, col, 0), who);
  }

  /** Completeness of the detector: when the origin belongs to `who`, the cell above it
      does not, and four `who` cells lie on a line through it, the detector reports a win.
      The cell above the origin is never the player's right after a legal drop. Only a
      vertical four needs that requirement, since `verticalCount` looks downward alone;
      for the other three lines it is stronger than needed (`HorizontalComplete`,
      `NegativeSlopeComplete` and `PositiveSlopeComplete` do without it). */
  lemma WinAtComplete(g: Cells, row: int, col: int, who: int)
    requires WellFormed(g) && InRange(row, col)
    requires row == Rows - 1 || g[row + 1][col] != who
    requires FourThrough(g, row, col, who)
    ensures WinAt(g, row, col, who)
  {
    var d: Dir, s: int :| IsAxis(d) && 0 <= s <= 3 && LineAt(g, d, row, col, s, who);
    match d
    case Up =>
      LineGivesRuns(g, Up, row, col, s, who);
      assert Opposite(Up) == Down;
      VerticalComplete(g, row, col, s, who);
    case Right =>
      LineGivesRuns(g, Right, row, col, s, who);
      assert Opposite(Right) == Left;
      HorizontalComplete(g, row, col, s, who);
    case DownRight =>
      LineGivesRuns(g, DownRight, row, col, s, who);
      assert Opposite(DownRight) == UpLeft;
      NegativeSlopeComplete(g, row, col, s, who);
    case UpRight =>
      LineGivesRuns(g, UpRight, row, col, s, who);
      assert Opposite(UpRight) == DownLeft;
      PositiveSlopeComplete(g, row, col, s, who);
  }

  lemma VerticalComplete(g: Cells, row: int, col: int, s: int, who: int)
    requires WellFormed(g) && InRange(row, col) && 0 <= s <= 3
    requires row == Rows - 1 || g[row + 1][col] != who
    requires forall j :: 1 <= j <= s ==> Owns(g, Step(Down, row, col, j), who)
    requires forall j :: 1 <= j <= 3 - s ==> Owns(g, Step(Up, row, col, j), who)
    ensures VerticalWin(g, row, col, who)
  {
    assert 1 <= 3 - s ==> Owns(g, Step(Up, row, col, 1), who);
    assert s == 3;
    assert Owns(g, Step(Down, row, col, 3), who);
    RunAtLeast(g, row, col, Down, who, 3, row);
  }

  lemma HorizontalComplete(g: Cells, row: int, col: int, s: int, who: int)
    requires WellFormed(g) && InRange(row, col) && 0 <= s <= 3
    requires forall j :: 1 <= j <= s ==> Owns(g, Step(Left, row, col, j), who)
    requires forall j :: 1 <= j <= 3 - s ==> Owns(g, Step(Right, row, col, j), who)
    ensures HorizontalWin(g, row, col, who)
  {
    if s > 0 { assert Owns(g, Step(Left, row, col, s), who); }
    if s < 3 { assert Owns(g, Step(Right, row, col, 3 - s), who); }
    RunAtLeast(g, row, col, Left, who, s, col);
    RunAtLeast(g, row, col, Right, who, 3 - s, Cols - 1 - col);
  }

  lemma NegativeSlopeComplete(g: Cells, row: int, col: int, s: int, who: int)
    requires WellFormed(g) && InRange(row, col) && 0 <= s <= 3
    requires forall j :: 1 <= j <= s ==> Owns(g, Step(UpLeft, row, col, j), who)
    requires forall j :: 1 <= j <= 3 - s ==> Owns(g, Step(DownRight, row, col, j), who)
    ensures NegativeSlopeWin(g, row, col, who)
  {
    var b := NegativeSlopeBounds(row, col);
    if s > 0 { assert Owns(g, Step(UpLeft, row, col, s), who); }
    if s < 3 { assert Owns(g, Step(DownRight, row, col, 3 - s), who); }
    RunAtLeast(g, row, col, UpLeft, who, s, b.0);
    RunAtLeast(g, row, col, DownRight, who, 3 - s, b.1);
  }

  lemma PositiveSlopeComplete(g: Cells, row: int, col: int, s: int, who: int)
    requires WellFormed(g) && InRange(row, col) && 0 <= s <= 3
    requires forall j :: 1 <= j <= s ==> Owns(g, Step(DownLeft, row, col, j), who)
    requires forall j :: 1 <= j <= 3 - s ==> Owns(g, Step(UpRight, row, col, j), who)
    ensures PositiveSlopeWin(g, row, col, who)
  {
    var b := PositiveSlopeBounds(row, col);
    if s > 0 { assert Owns(g, Step(DownLeft, row, col, s), who); }
    if s < 3 { assert Owns(g, Step(UpRight, row, col, 3 - s), who); }
    RunAtLeast(g, row, col, DownLeft, who, s, b.0);
    RunAtLeast(g, row, col, UpRight, who, 3 - s, b.1);
  }

  // ---------------------------------------------------------------------------
  // Fours anywhere on the board

  /** Some line of the board holds four `who` cells. */
  ghost predicate HasFour(g: Cells, who: int)
    requires WellFormed(g)
  {
    exists row, col :: InRange(row, col) && FourThrough(g, row, col, who)
  }

  lemma StepShift(d: Dir, row: int, col: int, j: int, k: int)
    ensures Step(d, Step(d, row, col, j).0, Step(d, row, col, j).1, k) == Step(d, row, col, j + k)
  {
  }

  /** Four `who` cells after a placement on an empty cell that were not there before all
      pass through the new piece, and the piece is `who`'s. */
  lemma NewFourGoesThrough(g: Cells, row: int, col: int, p: int, who: int)
    requires WellFormed(g) && InRange(row, col) && g[row][col] == Empty && !HasFour(g, who)
    ensures HasFour(Place(g, row, col, p), who) ==> p == who && FourThrough(Place(g, row, col, p), row, col, who)
  {
    var h := Place(g, row, col, p);
    if HasFour(h, who) {
      var r0, c0 :| InRange(r0, c0) && FourThrough(h, r0, c0, who);
      var d, s :| IsAxis(d) && 0 <= s <= 3 && LineAt(h, d, r0, c0, s, who);
      PlaceIsLocal(g, row, col, p);
      if j :| -s <= j <= 3 - s && Step(d, r0, c0, j) == (row, col) {
        assert Owns(h, Step(d, r0, c0, j), who);
        forall k | -(s + j) <= k <= 3 - (s + j)
          ensures Owns(h, Step(d, row, col, k), who)
        {
          StepShift(d, r0, c0, j, k);
          assert Owns(h, Step(d, r0, c0, j + k), who);
        }
        assert LineAt(h, d, row, col, s + j, who);
      } else {
        forall j | -s <= j <= 3 - s
          ensures Owns(g, Step(d, r0, c0, j), who)
        {
          assert Owns(h, Step(d, r0, c0, j), who);
        }
        assert LineAt(g, d, r0, c0, s, who);
        assert FourThrough(g, r0, c0, who);
        assert false;
      }
    }
  }

  /** Four in a line takes four cells of the owner. */
  lemma FourNeedsFourPieces(g: Cells, row: int, col: int, who: int)
    requires WellFormed(g) && FourThrough(g, row, col, who)
    ensures 4 <= |Owned(g, who)|
  {
    var d, s :| IsAxis(d) && 0 <= s <= 3 && LineAt(g, d, row, col, s, who);
    var q0, q1, q2, q3 := Step(d, row, col, -s), Step(d, row, col, 1 - s), Step(d, row, col, 2 - s), Step(d, row, col, 3 - s);
    assert Owns(g, q0, who) && Owns(g, q1, who) && Owns(g, q2, who) && Owns(g, q3, who);
    var four := {q0, q1, q2, q3};
    assert four <= Owned(g, who) by {
      forall q | q in four
        ensures q in Owned(g, who)
      {
        assert Owns(g, q, who);
        assert g[q.0][q.1] == who;
      }
    }
    assert q0 != q1 && q0 != q2 && q0 != q3 && q1 != q2 && q1 != q3 && q2 != q3;
    assert |four| == 4;
    SubsetCard(four, Owned(g, who));
  }

  /** An owner with at most three cells has no four in a row. */
  lemma FewPiecesNoFour(g: Cells, who: int)
    requires WellFormed(g) && |Owned(g, who)| < 4
    ensures !HasFour(g, who)
  {
    if HasFour(g, who) {
      var r, c :| InRange(r, c) && FourThrough(g, r, c, who);
      FourNeedsFourPieces(g, r, c, who);
    }
  }

  /** On a board with gravity and no four of `p`, after `p` drops onto an available cell the
      detector run on that cell reports a win exactly when `p` now has four in a row. */
  lemma DropDetectsNewFour(g: Cells, row: int, col: int, p: int)
    requires WellFormed(g) && Gravity(g) && Available(g, row, col) && p != Empty && !HasFour(g, p)
    ensures HasFour(Place(g, row, col, p), p) <==> WinAt(Place(g, row, col, p), row, col, p)
  {
    var h := Place(g, row, col, p);
    NewFourGoesThrough(g, row, col, p, p);
    AboveAvailable(g, row, col);
    PlaceIsLocal(g, row, col, p);
    if HasFour(h, p) {
      assert row == Rows - 1 || h[row + 1][col] == Empty;
      WinAtComplete(h, row, col, p);
    }
    if WinAt(h, row, col, p) {
      WinAtSound(h, row, col, p);
    }
  }

  /** A board on which the source's positive-slope scanner misses a win: the human has
      just dropped into (1, 0), holds 8 pieces against the CPU's 7, and owns (1, 0), (2, 1),
      (3, 2), (4, 3). The source's `greater` is 1 there, so its top-right walk stops after one cell. */
  function MissedDiagonal(): (g: Cells)
    ensures WellFormed(g)
  {
    [ [1, 2, 1, 2, 1, 0, 0],
      [1, 2, 2, 1, 0, 0, 0],
      [0, 1, 2, 2, 0, 0, 0],
      [0, 0, 1, 2, 0, 0, 0],
      [0, 0, 0, 1, 0, 0, 0],
      [0, 0, 0, 0, 0, 0, 0] ]
  }

  lemma PositiveSlopeMissesWin()
    ensures Gravity(MissedDiagonal()) && MissedDiagonal()[2][0] == Empty
    ensures FourThrough(MissedDiagonal(), 1, 0, Player)
    ensures !VerticalWin(MissedDiagonal(), 1, 0, Player)
    ensures !HorizontalWin(MissedDiagonal(), 1, 0, Player)
    ensures !NegativeSlopeWin(MissedDiagonal(), 1, 0, Player)
    ensures !PositiveSlopeWinAsWritten(MissedDiagonal(), 1, 0, Player)
    ensures !WinAtAsWritten(MissedDiagonal(), 1, 0, Player)
    ensures PositiveSlopeWin(MissedDiagonal(), 1, 0, Player)
    ensures WinAt(MissedDiagonal(), 1, 0, Player)
  {
    var g := MissedDiagonal();
    assert Run(g, 1, 0, Down, Player, 1) == 1;
    assert Run(g, 1, 0, Left, Player, 0) == 0;
    assert Run(g, 1, 0, Right, Player, 6) == 0;
    assert NegativeSlopeBounds(1, 0) == (0, 1);
    assert Run(g, 1, 0, UpLeft, Player, 0) == 0;
    assert Run(g, 1, 0, DownRight, Player, 1) == 0;
    forall j | 0 <= j <= 3
      ensures Owns(g, Step(UpRight, 1, 0, j), Player)
    {
      assert j == 0 || j == 1 || j == 2 || j == 3;
    }
    assert LineAt(g, UpRight, 1, 0, 0, Player);
    assert Run(g, 1, 0, UpRight, Player, 1) == 1;
    assert Run(g, 1, 0, UpRight, Player, 4) == 3;
  }
}
