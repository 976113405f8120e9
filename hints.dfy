/**
 * `findHintCell`: the first empty cell of the current game in row-major
 * order, with the solved game's digit for it; none when no cell is empty.
 */
module Hints {
  import opened Wrappers
  import opened Grids

  /** The object findHintCell returns. */
  datatype Hint = Hint(row: int, col: int, number: int)

  /** The hint for the current game, or None (`null`) when it has no empty cell. */
  function FindHintCell(game: Grid, solved: Grid): (h: Option<Hint>)
    requires IsGrid(game) && IsGrid(solved)
    ensures h.Some? ==> 0 <= h.value.row < 9 && 0 <= h.value.col < 9
  {
    FirstEmptyIsFirst(game);
    match FirstEmpty(game)
    case None => None
    case Some((r, c)) => Some(Hint(r, c, solved[r][c]))
  }

  /**
   * There is no hint exactly when the game is full; a hint names an empty cell
   * before which every cell is filled, and carries the solution's digit there.
   */
  lemma HintIsFirstEmptyCell(game: Grid, solved: Grid)
    requires IsGrid(game) && IsGrid(solved)
    ensures FindHintCell(game, solved).None? <==> Full(game)
    ensures FindHintCell(game, solved).Some? ==>
      var h := FindHintCell(game, solved).value;
      && game[h.row][h.col] == 0 && h.number == solved[h.row][h.col]
      && forall i, j :: 0 <= i < 9 && 0 <= j < 9 && Before(i, j, h.row, h.col) ==> game[i][j] != 0
  {
    FirstEmptyIsFirst(game);
  }

  /** Applying a hint from a solution keeps the game one the solution extends, with one empty cell fewer. */
  lemma HintKeepsSolvable(game: Grid, solved: Grid)
    requires IsGrid(game) && IsGrid(solved) && Extends(solved, game) && Full(solved)
    requires FindHintCell(game, solved).Some?
    ensures var h := FindHintCell(game, solved).value;
      && Extends(solved, SetCell(game, h.row, h.col, h.number))
      && |EmptyCells(SetCell(game, h.row, h.col, h.number))| == |EmptyCells(game)| - 1
  {
    HintIsFirstEmptyCell(game, solved);
    var h := FindHintCell(game, solved).value;
    FillShrinksEmptyCells(game, h.row, h.col, h.number);
  }
}
