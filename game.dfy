/** The turn loop of `main` in main.cpp, with the camera and the random source
    replaced by inputs: `attempts` lists the cells the vision code reports for the
    human, one per attempt, and `draws(t)` gives the two `rand()` results used by
    the CPU on turn `t`. */
module Game {
  import opened Grid
  import opened Lines
  import opened ConnectFour
  import Selector

  datatype Outcome =
    | PlayerWon   // "Congratulations, player! You won!"
    | CpuWon      // "Sorry, CPU player won! Better luck next time!"
    | Tied        // 21 turns without a win: "Tie state reached."
    | Abandoned   // the vision input ran out before the match ended

  /** The position after `human` moves of the human and `cpu` moves of the CPU: gravity
      holds and each side has exactly its own pieces on the board. */
  ghost predicate Reached(g: Cells, human: int, cpu: int)
  {
    WellFormed(g) && Gravity(g) && Pieces(g) == human + cpu &&
    |Owned(g, Player)| == human && |Owned(g, Cpu)| == cpu
  }

  /** The cell the CPU takes on board `g` after the human played in column `col`: the first
      column with room from the one `chooseColumn` picks, at its height. */
  function CpuMove(g: Cells, col: int, draw: nat, coin: nat): (int, int)
    requires WellFormed(g) && 0 <= col < Cols
  {
    var c := FirstOpenColumn(g, Selector.ChooseColumn(col, draw, coin));
    (Height(g, c), c)
  }

  /** The match played from position `g` after `turn` turns, with the proposed cells
      `attempts[next..]` still to come: the final board, the outcome and the last turn.
      A cell that is not available is skipped and costs no turn. */
  function Match(g: Cells, turn: nat, attempts: seq<(int, int)>, next: nat, draws: nat -> (nat, nat)):
    (Cells, Outcome, int)
    requires WellFormed(g) && next <= |attempts|
    decreases |attempts| - next, 1
  {
    if 21 <= turn then (g, Tied, turn)
    else if next == |attempts| then (g, Abandoned, turn)
    else
      var row, col := attempts[next].0, attempts[next].1;
      if !Available(g, row, col) then Match(g, turn, attempts, next + 1, draws)
      else HumanMoved(Place(g, row, col, Player), turn + 1, row, col, attempts, next, draws)
  }

  /** The rest of turn `turn` once the human's piece is on (row, col) in `h`: from turn 4 on
      the check for the human's four, then the CPU's move and the check for its four. */
  function HumanMoved(h: Cells, turn: nat, row: int, col: int, attempts: seq<(int, int)>, next: nat,
                      draws: nat -> (nat, nat)): (Cells, Outcome, int)
    requires WellFormed(h) && InRange(row, col) && next < |attempts|
    decreases |attempts| - next, 0
  {
    if 3 < turn && WinAt(h, row, col, Player) then (h, PlayerWon, turn)
    else
      var m := CpuMove(h, col, draws(turn).0, draws(turn).1);
      var k := Place(h, m.0, m.1, Cpu);
      if 3 < turn && InRange(m.0, m.1) && WinAt(k, m.0, m.1, Cpu) then (k, CpuWon, turn)
      else Match(k, turn, attempts, next + 1, draws)
  }

  /** Plays turns 1 to 21. A rejected human move costs no turn and leaves the board as it
      was; an accepted one is followed by the CPU's move. From turn 4 on, each move is
      checked for four in a row. */
  method PlayMatch(attempts: seq<(int, int)>, draws: nat -> (nat, nat))
    returns (game: Board, outcome: Outcome, turn: int)
    ensures game.Valid() && 0 <= turn <= 21
    ensures (game.Contents(), outcome, turn) == Match(EmptyCells(), 0, attempts, 0, draws)
    ensures Reached(game.Contents(), turn, turn - (if outcome == PlayerWon then 1 else 0))
    ensures outcome == Tied ==> turn == 21 && Full(game.Contents())
    ensures outcome == Abandoned ==> turn < 21
    // the match stops at the first four in a row, and only there
    ensures outcome == PlayerWon <==> HasFour(game.Contents(), Player)
    ensures outcome == CpuWon <==> HasFour(game.Contents(), Cpu)
    ensures outcome == PlayerWon || outcome == CpuWon ==> 3 < turn
  {
    game := new Board();
    EmptyCellsStart();
    OwnedEmptyCells(Player);
    OwnedEmptyCells(Cpu);
    FewPiecesNoFour(EmptyCells(), Player);
    FewPiecesNoFour(EmptyCells(), Cpu);
    turn := 0;
    outcome := Tied;
    var next := 0;
    ghost var final := Match(EmptyCells(), 0, attempts, 0, draws);
    while turn < 21
      invariant fresh(game.board) && game.Valid()
      invariant 0 <= turn <= 21 && 0 <= next <= |attempts|
      invariant Match(game.Contents(), turn, attempts, next, draws) == final
      invariant Reached(game.Contents(), turn, turn)
      invariant !HasFour(game.Contents(), Player) && !HasFour(game.Contents(), Cpu)
      invariant outcome == Tied
      decreases |attempts| - next
    {
      if next == |attempts| {
        outcome := Abandoned;
        break;
      }
      ghost var before := game.Contents();
      turn := turn + 1;
      var row, col := attempts[next].0, attempts[next].1;
      next := next + 1;
      var accepted, won := HumanTurn(game, row, col, turn);
      if !accepted {
        // "Error. Invalid option. Please try again."
        turn := turn - 1;
        assert Match(before, turn, attempts, next - 1, draws) == Match(before, turn, attempts, next, draws);
        continue;
      }
      ghost var placed := game.Contents();
      assert Match(before, turn - 1, attempts, next - 1, draws) ==
             HumanMoved(placed, turn, row, col, attempts, next - 1, draws);
      if won {
        outcome := PlayerWon;
        break;
      }
      var draw := draws(turn);
      var robot, cpuWon := CpuTurn(game, col, draw.0, draw.1, turn);
      assert HumanMoved(placed, turn, row, col, attempts, next - 1, draws) ==
             (if cpuWon then (game.Contents(), CpuWon, turn) else Match(game.Contents(), turn, attempts, next, draws));
      if cpuWon {
        outcome := CpuWon;
        break;
      }
    }
    if outcome == Tied {
      PiecesBound(game.Contents());
    }
  }

  /** The human's half of a turn: the move is taken only if the cell is available, and from
      turn 4 on it is checked for four in a row. */
  method HumanTurn(game: Board, row: int, col: int, turn: int) returns (accepted: bool, won: bool)
    requires game.Valid() && 1 <= turn && Reached(game.Contents(), turn - 1, turn - 1)
    requires !HasFour(game.Contents(), Player) && !HasFour(game.Contents(), Cpu)
    modifies game.board
    ensures game.Valid()
    ensures accepted == Available(old(game.Contents()), row, col)
    ensures !accepted ==> game.Contents() == old(game.Contents()) && !won
    ensures accepted ==> game.Contents() == Place(old(game.Contents()), row, col, Player)
    ensures accepted ==> Reached(game.Contents(), turn, turn - 1) && !HasFour(game.Contents(), Cpu)
    ensures accepted ==> (won <==> HasFour(game.Contents(), Player))
    ensures accepted ==> (won <==> 3 < turn && WinAt(game.Contents(), row, col, Player))
    ensures won ==> 3 < turn
  {
    ghost var before := game.Contents();
    accepted := game.IsSpaceAvailable(row, col);
    if !accepted {
      return accepted, false;
    }
    Drop(before, row, col, Player);
    game.PlayerOccupies(row, col);
    if turn > 3 {
      won := game.Is4InARow(row, col, Player);
    } else {
      // with at most three pieces down, skipping the check misses nothing
      FewPiecesNoFour(game.Contents(), Player);
      won := false;
    }
  }

  /** The CPU's half of a turn: its move from the draws and the human's last column, then
      from turn 4 on the check for four in a row. With 2 * turn - 1 < 42 pieces down some
      column still has room. */
  method CpuTurn(game: Board, col: int, draw: nat, coin: nat, turn: int) returns (robot: Space, won: bool)
    requires game.Valid() && 1 <= turn <= 21 && 0 <= col < Cols
    requires Reached(game.Contents(), turn, turn - 1)
    requires !HasFour(game.Contents(), Player) && !HasFour(game.Contents(), Cpu)
    modifies game.board
    ensures game.Valid()
    ensures (robot.row, robot.col) == CpuMove(old(game.Contents()), col, draw, coin)
    ensures robot.col == FirstOpenColumn(old(game.Contents()), Selector.ChooseColumn(col, draw, coin))
    ensures Available(old(game.Contents()), robot.row, robot.col)
    ensures game.Contents() == Place(old(game.Contents()), robot.row, robot.col, Cpu)
    ensures Reached(game.Contents(), turn, turn) && !HasFour(game.Contents(), Player)
    ensures won <==> HasFour(game.Contents(), Cpu)
    ensures won <==> 3 < turn && WinAt(game.Contents(), robot.row, robot.col, Cpu)
  {
    ghost var before := game.Contents();
    PiecesBound(before);
    TieIsFull(before);
    robot := game.DecideRobotMove(col, draw, coin);
    Drop(before, robot.row, robot.col, Cpu);
    if turn > 3 {
      won := game.Is4InARow(robot.row, robot.col, Cpu);
    } else {
      FewPiecesNoFour(game.Contents(), Cpu);
      won := false;
    }
  }

  function Opponent(p: int): int {
    if p == Player then Cpu else Player
  }

  /** One legal drop on a board with gravity and no four in a row yet: gravity still holds,
      the mover gains one piece and the opponent none, the opponent still has no four, and
      the detector run on the new piece tells whether the mover now has one. */
  lemma Drop(g: Cells, row: int, col: int, p: int)
    requires WellFormed(g) && Gravity(g) && Available(g, row, col) && (p == Player || p == Cpu)
    requires !HasFour(g, Player) && !HasFour(g, Cpu)
    ensures Gravity(Place(g, row, col, p))
    ensures Pieces(Place(g, row, col, p)) == Pieces(g) + 1
    ensures |Owned(Place(g, row, col, p), p)| == |Owned(g, p)| + 1
    ensures |Owned(Place(g, row, col, p), Opponent(p))| == |Owned(g, Opponent(p))|
    ensures !HasFour(Place(g, row, col, p), Opponent(p))
    ensures HasFour(Place(g, row, col, p), p) <==> WinAt(Place(g, row, col, p), row, col, p)
  {
    PlaceAvailableKeepsGravity(g, row, col, p);
    PlaceAddsOnePiece(g, row, col, p);
    OwnedPlace(g, row, col, p, p);
    OwnedPlace(g, row, col, p, Opponent(p));
    NewFourGoesThrough(g, row, col, p, Opponent(p));
    DropDetectsNewFour(g, row, col, p);
  }
}
