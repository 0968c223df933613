# Connect Four board engine, modelled in Dafny

The program is a camera-driven Connect Four game against the computer. Its engine is the
`Board` class of `main.cpp`:
- a 6 x 7 grid of occupants (0 empty, 1 the human, 2 the CPU; row 0 is the bottom row);
- queries for whether a cell is occupied or available and whether a column or the board is full;
- write-once placements for either side;
- a detector that looks for four in a row through the piece just placed, with one scanner per line direction;
- the CPU's move: a weighted random column near the human's last column, which moves right, wrapping
  around, past full columns.

`main` plays up to 21 turns. Each turn the human moves and then the CPU moves. From turn 4
on, each move is checked for a win.

The model has five modules:

- `Grid` has the grid as a value (`seq<seq<int>>`). It defines:
  - occupancy, availability, column-full and tie;
  - the write-once placement `Place`;
  - gravity (no piece floats above an empty cell) and the column height under gravity;
  - piece counts and the set of cells each side owns.
- `Lines` has the eight directions and the runs of one owner that the scanners count. It also
  holds the scanners' edge clamps, the predicate each scanner computes, and the detector
  `WinAt`. Beside them is an independent definition, `FourThrough`: four cells of one owner on
  a line through a cell. It is related to the detector in both directions.
- `Selector` holds `chooseColumn`. The two `rand()` results are parameters, and C++'s
  truncating `%` is written out.
- `ConnectFour` holds `class Board` over an `array2<int>`. Each member of the C++ class is a
  method or function here with the same branches and loops. The one exception is the bound
  of the up-right walk in `diagonalPositiveSlopeCount`, which the model corrects (see
  "## Findings"). Each member is proved against the `Grid` and `Lines` definitions through
  the ghost snapshot `Contents()`.
- `Game` holds `main`'s turn loop. The human's moves arrive as a finite sequence of proposed cells
  and the CPU's draws as a function of the turn number. The function `Match` describes the
  whole match on values, and the loop is proved to compute it.

The strongest properties:

- The detector is sound. Every reported win is four cells of the mover on one line through the
  new piece.
- The detector with the corrected positive-slope bound is complete. After a legal drop, every
  four the drop creates is found. The source's own bound is not complete: it misses some wins
  through (1, 0), (2, 0) and (2, 1).
- A whole match played with the corrected detector therefore ends with a win for a side
  exactly when that side has four in a row on the final board. A tie is declared only on a
  full board.

## Model

| member | source | states |
|---|---|---|
| Grid.EmptyCellsStart | main.cpp:39-45 | the initial board has no pieces, obeys gravity and holds only legal codes |
| Grid.OwnedEmptyCells | main.cpp:39-45 | on the initial board neither side owns a cell |
| ConnectFour.Board.constructor | main.cpp:39-45 | a fresh 6 x 7 array whose every cell is empty |
| ConnectFour.Board.IsSpaceOccupied | main.cpp:55-63 | false for any cell off the board; otherwise true exactly when the cell is not 0 |
| ConnectFour.Board.IsSpaceAvailable | main.cpp:72-81 | true exactly when the cell is on the board, empty, and on row 0 or above an occupied cell; every other case, including an empty cell with an empty cell under it, gives false |
| Grid.AboveAvailable | main.cpp:72-81 | under gravity the cell above an available cell is empty |
| ConnectFour.Board.PlayerOccupies | main.cpp:91-97 | the new board is the old one with the cell set to 1 if it was on the board and empty, and unchanged otherwise |
| ConnectFour.Board.CpuOccupies | main.cpp:107-116 | the new board is the old one with the cell set to 2 if it was on the board and empty, and unchanged otherwise |
| Grid.PlaceIsLocal | main.cpp:91-97 | a placement changes no cell but the named one, writes it only when it is on the board and empty, and otherwise leaves the board as it was |
| Grid.PlaceLegal | main.cpp:107-116 | placing 0, 1 or 2 keeps every cell a legal code |
| Grid.PlaceAvailableKeepsGravity | main.cpp:465-466 | a placement on an available cell keeps gravity |
| Grid.PlaceAddsOnePiece | main.cpp:465-466 | a placement on an empty cell adds exactly one piece |
| Grid.OwnedPlace | main.cpp:91-97 | a placement on an empty cell adds that one cell to its owner's cells and leaves the other side's cells unchanged |
| ConnectFour.Board.IsColumnFull | main.cpp:398-405 | true exactly when the top cell is occupied; under gravity, exactly when all six cells are occupied |
| Grid.ColumnShape | main.cpp:399-400 | under gravity the occupied cells of a column are exactly the rows below its height |
| Grid.OpenColumnAvailable | main.cpp:345-352 | a column whose top cell is empty has an available cell, its lowest empty one, with or without gravity |
| Grid.AvailableIsHeight | main.cpp:345-352 | under gravity a column's only available cell is at its height, and it has one exactly when its top cell is empty |
| ConnectFour.Board.AvailableRowInCol | main.cpp:345-352 | -1 exactly when no row of the column is available; otherwise the lowest available row, which under gravity is the column height |
| ConnectFour.Board.IsTieState | main.cpp:413-422 | true exactly when all seven top cells are occupied; under gravity, exactly when all 42 cells are |
| Grid.TieIsFull | main.cpp:414-415 | under gravity, all seven top cells occupied is the same as all 42 cells occupied |
| Grid.PiecesBound | main.cpp:444-446 | a board holds at most 42 pieces, and 42 exactly when it is full |
| Lines.Run | main.cpp:153-161 | a run looks at no more cells than its limit |
| Lines.RunOwned | main.cpp:153-161 | every cell a run counts belongs to the owner |
| Lines.RunAtLeast | main.cpp:180-188 | that many owned cells in a row within the limit make a run at least that long |
| Lines.RunExact | main.cpp:192-200 | a walk that found n owned cells and then met its limit or a cell of another owner has found the whole run |
| Lines.RunStops | main.cpp:192-200 | a run shorter than its limit ended at a cell the owner does not hold |
| Lines.RunToEdge | main.cpp:303-312 | when the step after `e` is off the board, a limit beyond `e` gives the same run as `e` |
| Lines.RunGrows | main.cpp:303-312 | a longer limit never gives a shorter run |
| ConnectFour.Board.VerticalCount | main.cpp:149-164 | true exactly when the three cells straight below the origin hold `who` |
| Lines.VerticalWinBelow | main.cpp:153-161 | the vertical scanner's run of at least three is the same as the three cells straight below the origin belonging to `who`, in both directions |
| ConnectFour.Board.HorizontalCount | main.cpp:175-203 | true exactly when the left run plus the right run of `who` reach three |
| Lines.NegativeSlopeBounds | main.cpp:222-232 | `lesser` and `greater` are min(5-row, col) and min(row, 6-col) for every cell of the board |
| Lines.NegativeSlopeStaysOnBoard | main.cpp:217-221 | every cell the negative-slope walks read is on the board, and one more step would leave it |
| ConnectFour.Board.DiagonalNegativeSlopeCount | main.cpp:214-259 | true exactly when the up-left run plus the down-right run within those bounds reach three |
| Lines.PositiveSlopeBoundsAsWritten | main.cpp:278-288 | the code's `lesser` is min(row, col) |
| Lines.PositiveSlopeAsWrittenVersusEdge | main.cpp:279-288 | the code's `greater` is past the edge exactly when row+1 < col or col < row with row >= 3, and short of it exactly when col < row <= 2 |
| Lines.PositiveSlopeOverrun | main.cpp:303-304 | from (5, 0) the code allows five up-right steps, and the first one reads row 6, which is off the board |
| Lines.PositiveSlopeBounds | main.cpp:273-277 | the corrected bounds are min(row, col) and min(5-row, 6-col) |
| Lines.PositiveSlopeStaysOnBoard | main.cpp:273-277 | with the corrected bounds every cell the positive-slope walks read is on the board, and each walk goes up to the edge |
| ConnectFour.Board.DiagonalPositiveSlopeCount | main.cpp:270-315 | true exactly when the down-left run plus the up-right run within the corrected bounds reach three |
| Lines.PositiveSlopeAsWrittenVersusCorrected | main.cpp:270-315 | the scanner with the code's bounds (`PositiveSlopeWinAsWritten`, an off-board cell ending the walk) reports a win only where the corrected one does, and the two agree at every origin except (1, 0), (2, 0) and (2, 1); the same holds for the whole detector with each scanner (`WinAtAsWritten` against `WinAt`) |
| Lines.PositiveSlopeMissesWin | main.cpp:126-139 | a board with gravity on which the human, having just dropped into (1, 0), owns four on the positive diagonal; none of the four scanners as written reports it, so `is4InARow` as written returns false, while the corrected detector reports the win |
| ConnectFour.Board.Is4InARow | main.cpp:126-139 | false when the origin is not `who`'s; otherwise true exactly when one of the four scanners reports a win |
| Lines.WinAtSound | main.cpp:126-139 | a reported win is four `who` cells on one line through the origin; a vertical win is the origin and the three cells below it |
| Lines.WinAtComplete | main.cpp:131-135 | with the corrected positive-slope bound, four `who` cells on a line through the origin are always reported when the cell above the origin is not `who`'s (a condition only a vertical four needs) |
| Lines.NewFourGoesThrough | main.cpp:473-474 | a four created by one placement passes through the new piece and belongs to its owner |
| Lines.DropDetectsNewFour | main.cpp:483-484 | after a legal drop, the detector run on the new piece reports a win exactly when the mover now has four in a row |
| Lines.FourNeedsFourPieces | main.cpp:473-474 | four in a row takes at least four cells of the owner |
| Lines.FewPiecesNoFour | main.cpp:473-474 | a side with at most three pieces has no four in a row, so skipping the check before turn 4 misses nothing |
| Selector.Rem7 | main.cpp:387 | C++'s `% 7`: the remainder has the dividend's sign and agrees with the mathematical remainder for non-negative dividends |
| Selector.ChooseColumn | main.cpp:360-390 | draws 0-6 of 20 keep the base column; 7-16 push 1, 17-18 push 2 and 19 push 3 to the left (even coin) or right (odd coin), wrapping mod 7; a base column on the board gives a column on the board |
| Selector.ChooseColumnDistance | main.cpp:381-389 | a push never returns the base column, and the two coin sides go the pushed distance left and right |
| ConnectFour.OpenFrom | main.cpp:329-331 | the fallback search always stays on the board |
| ConnectFour.OpenFromVisits | main.cpp:329-331 | if the search stops at a full column, every column it passed is full |
| ConnectFour.FirstOpenColumnIsOpen | main.cpp:327-331 | when some top cell is empty, the search ends within six moves at a column with room |
| ConnectFour.FirstOpenColumnIsNearest | main.cpp:327-331 | the search takes the first column with room to the right of the chosen one, wrapping, and every column it skips is full |
| ConnectFour.Board.DecideRobotMove | main.cpp:324-337 | the CPU's column is the first with room from the chosen column rightwards; the CPU's row is on the board and is the column's lowest available cell (the column height under gravity); the CPU fills that cell and nothing else, keeps gravity, and returns those coordinates with owner 2 |
| Game.Drop | main.cpp:465-466 | one legal drop keeps gravity, adds one piece for the mover and none for the other side, gives the other side no four, and is checked exactly by the detector on the new piece |
| Game.HumanTurn | main.cpp:463-477 | an unavailable cell is rejected and changes nothing; an accepted one is placed, and from turn 4 on reports a win exactly when the detector finds one on that cell, which is exactly when the human now has four in a row |
| Game.CpuTurn | main.cpp:479-487 | the CPU's column is the first with room from the one `chooseColumn` picks from the human's column and the draws, and its row is that column's height; the CPU fills that available cell; from turn 4 on it reports a win exactly when the detector finds one for the CPU there, which is exactly when the CPU now has four in a row; the human still has none |
| Game.PlayMatch | main.cpp:446-494 | the final board, outcome and turn are those of `Game.Match` played from the empty board on the proposed cells and the draws (skipping unavailable cells, ending `Abandoned` only when the cells run out); turn stays in 0..21; each side's cells number the moves it made; with the corrected detector, the match is won by a side exactly when that side has four in a row on the final board, and only from turn 4; a tie happens only at turn 21 on a full board |

## Left out

- Console output (`cout`): messages such as "Invalid space" and "Error" are not modelled. Their branches are, and they return the values the code returns.
- The vision code (`imageProcessing.h`: camera capture, colour calibration, image differencing, moments) and its unused `Coordinate` class. Its only result the game uses is the human's proposed cell, so the model takes that cell as an input.
- The pixel-to-cell conversion in `main` (main.cpp:460-461): it uses floating point and divides by an image moment that can be zero. The proposed row and column are arbitrary integers.
- `srand`/`rand`: the draws are parameters of `Selector.ChooseColumn` and `ConnectFour.Board.DecideRobotMove`. The frequencies of the outcomes are statistical and not stated. The code's comment gives them in twenty-firsts (7/21, 10/21, 2/21, 2/21), but the code uses a twenty-outcome draw (7, 10, 2, 1 out of 20). The model follows the code.
- Selector.ChooseColumn: does not model 32-bit overflow of `baseCol + push`. That cannot happen for the base columns the game passes, which are 0-6.
- The out-of-array read of the positive-slope scanner is not replayed. C++ gives it no meaning, so the model does not reproduce it. The class uses the corrected bound, and `Lines.PositiveSlopeWinAsWritten` is a comparison copy in which an off-board cell simply ends the walk. The real code can do worse past the right edge (row + 1 < col). From (0, 5), `greater` is 5, and the reads `board[2][7]` and `board[3][8]` fall, in the row-major array, on the cells (3, 0) and (4, 1). A build laid out that way counts pieces that are not on the diagonal and can report a false win. So the clause of `Lines.PositiveSlopeAsWrittenVersusCorrected` saying the code reports a win only where the corrected scanner does holds for the comparison copy only.
- ConnectFour.Board.DiagonalPositiveSlopeCount: uses the corrected `greater` at every origin. Besides removing the out-of-array read, this lengthens the up-right walk at (1, 0), (2, 0) and (2, 1). There the source's walk stops short of the edge, its result is defined, and it can report no win where the model reports one (`Lines.PositiveSlopeMissesWin`). `Lines.PositiveSlopeAsWrittenVersusCorrected` proves that these three origins are the only difference.
- ConnectFour.Board.Is4InARow, Lines.WinAtComplete, Lines.DropDetectsNewFour and Game.PlayMatch: their completeness and "won exactly when four in a row" clauses are about the corrected detector. With the source's bound, a match can go on after a four made by a drop into (1, 0), (2, 0) or (2, 1).
- The shared counter: the horizontal and both diagonal scanners add their two runs into one counter, and the model follows that code. So an origin in the middle of a run of four is detected.
- The camera retry loop: the proposed cells are a finite sequence. When it runs out before the match ends, the model's match ends `Abandoned`, which the program has no counterpart for.
- The tie message after a turn-21 win: `main` prints "Tie state reached" whenever `turn >= 21` at the end, including after a win on turn 21. The model reports only the win.
- A full board for `decideRobotMove`: on a board with every top cell occupied, the code's search never stops. `ConnectFour.Board.DecideRobotMove` requires a board that is not in the tie state, and `Game.PlayMatch` shows that the CPU is only asked to move on such a board.

## Findings

| source | as written | input that shows it | evidently intended | confidence | as-written member | corrected member |
|---|---|---|---|---|---|---|
| main.cpp:279-288 | `greater` is `5 - row` when row <= col and `row` when row > col, so the up-right walk can run off the top or the right edge | origin (5, 0): `greater` is 5 and the first read is `board[6][1]`, outside the array; origin (0, 5): `greater` is 5 and the reads `board[2][7]` and `board[3][8]` run past the right edge, landing in a row-major layout on cells (3, 0) and (4, 1), which can produce a false win | `greater` = min(5-row, 6-col), as the comment at main.cpp:273-277 promises | not executed | Lines.PositiveSlopeOverrun | Lines.PositiveSlopeBounds |
| main.cpp:279-288 | when col < row <= 2, `greater` is `row`, which is smaller than the room to the edge, so the walk stops early | the board of `Lines.MissedDiagonal`: the human drops into (1, 0) and owns (1, 0), (2, 1), (3, 2), (4, 3), but the up-right walk stops after one step, and none of the four scanners reports a win | the walk goes up to the edge and the win is reported | not executed | Lines.PositiveSlopeMissesWin | Lines.WinAtComplete |
