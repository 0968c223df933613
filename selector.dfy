/** The CPU's weighted-random column choice, `Board::chooseColumn` in main.cpp.
    The two `rand()` results are parameters: `draw` stands for the first call and
    `coin` for the second one (only looked at when the base column is not kept). */
module Selector {

  /** C++'s `x % 7` on `int`: the quotient truncates toward zero, so a negative
      dividend gives a remainder in (-7, 0]; Dafny's own `%` never returns a negative value. */
  function Rem7(a: int): (r: int)
    ensures -7 < r < 7
    ensures a >= 0 ==> r == a % 7
    ensures a < 0 ==> r == (if a % 7 == 0 then 0 else a % 7 - 7)
  {
    if a >= 0 then a % 7 else -((-a) % 7)
  }

  /** How far from the base column a draw `v` in [7, 19] moves: 10 outcomes move 1,
      2 outcomes move 2, 1 outcome moves 3. */
  function Push(v: int): int {
    if v < 17 then 1 else if v < 19 then 2 else 3
  }

  function ChooseColumn(baseCol: int, draw: nat, coin: nat): (col: int)
    // 7 of the 20 outcomes of `rand() % 20` keep the base column
    ensures draw % 20 < 7 ==> col == baseCol
    // every other outcome moves `Push` columns left (even coin) or right (odd coin), wrapping around
    ensures 0 <= baseCol < 7 && 7 <= draw % 20 ==>
              col == (baseCol + (if coin % 2 == 0 then -Push(draw % 20) else Push(draw % 20))) % 7
    ensures 0 <= baseCol < 7 ==> 0 <= col < 7
  {
    var value := draw % 20;
    if value < 7 then baseCol
    else
      var push := Push(value);
      if coin % 2 == 0 then Rem7(Rem7(baseCol - push) + 7) else Rem7(baseCol + push)
  }

  /** For a base column on the board, the chosen column is the base column or lies `Push`
      columns away from it around the wrap, and each side of a push is reachable. */
  lemma ChooseColumnDistance(baseCol: int, draw: nat, coin: nat)
    requires 0 <= baseCol < 7 && 7 <= draw % 20
    ensures ChooseColumn(baseCol, draw, coin) != baseCol
    ensures coin % 2 == 0 ==> (ChooseColumn(baseCol, draw, coin) + Push(draw % 20)) % 7 == baseCol
    ensures coin % 2 == 1 ==> (baseCol + Push(draw % 20)) % 7 == ChooseColumn(baseCol, draw, coin)
  {
  }
}
