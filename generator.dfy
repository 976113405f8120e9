/**
 * `generateSudoku`: fill an empty board with the backtracking solver, keep a
 * deep copy as the solved game, then clear cells with the level's removal
 * rule. The count cleared is the level's count capped at the number of cells
 * the level's pattern offers (the uncapped count cannot be reached above
 * level 5, see `Removal.LoopAsWrittenNeverExits`).
 */
module Generator {
  import opened Grids
  import opened Boards
  import opened Solutions
  import opened Solver
  import opened Difficulty
  import opened Removal

  /** How many cells the generator clears: the level's count, at most the cells its rule admits. */
  function RemovalTarget(level: int, extra: int): (n: int)
    requires level >= 1 && LogBonus(level, BaseCellsToRemove(level), extra)
    ensures 0 <= n <= EligibleCount(level)
    ensures n <= CalculateDynamicDifficulty(level, extra).cellsToRemove
    ensures level <= 5 ==> n == CalculateDynamicDifficulty(level, extra).cellsToRemove
  {
    var cellsToRemove := CalculateDynamicDifficulty(level, extra).cellsToRemove;
    if level <= 5 then
      RemovalCountFitsUpToLevelFive(level, extra);
      EligibleCountIsSize(level);
      cellsToRemove
    else if cellsToRemove < EligibleCount(level) then cellsToRemove
    else EligibleCount(level)
  }

  /** Up to level 5 the count is the level's own; above it, every cell of the pattern is cleared. */
  lemma RemovalTargetByLevel(level: int, extra: int)
    requires level >= 1 && LogBonus(level, BaseCellsToRemove(level), extra)
    ensures level <= 5 ==> RemovalTarget(level, extra) == CalculateDynamicDifficulty(level, extra).cellsToRemove
    ensures level > 5 ==> RemovalTarget(level, extra) == |EligibleCells(level)|
  {
    EligibleCountIsSize(level);
    if level > 5 {
      RemovalCountExceedsPattern(level, extra);
    }
  }

  /** On a full grid every eligible cell is filled. */
  lemma FullEligibleFilled(g: Grid, level: int)
    requires IsGrid(g) && Full(g) && level >= 0
    ensures EligibleFilled(g, level) == EligibleCells(level)
  {
  }

  /** A puzzle cut from a solution is solvable, and filling its holes from the solution gives the solution back. */
  lemma PuzzleOfSolution(puzzle: Grid, solution: Grid)
    requires IsGrid(puzzle) && IsSolution(solution) && Extends(solution, puzzle)
    ensures Completable(puzzle)
    ensures FillFrom(puzzle, solution) == solution
  {
    FillFromSolution(puzzle, solution);
  }

  /**
   * generateSudoku(level): the solved game is a valid complete grid, the
   * puzzle agrees with it on every filled cell, its empty cells are cells the
   * level's rule admits, and there are RemovalTarget(level, extra) of them.
   */
  method GenerateSudoku(level: int, extra: int) returns (puzzle: array2<int>, solvedGame: array2<int>)
    requires level >= 1 && LogBonus(level, BaseCellsToRemove(level), extra)
    ensures fresh(puzzle) && fresh(solvedGame) && IsBoard(puzzle) && IsBoard(solvedGame)
    ensures IsSolution(Snapshot(solvedGame))
    ensures Extends(Snapshot(solvedGame), Snapshot(puzzle))
    ensures forall i, j :: 0 <= i < 9 && 0 <= j < 9 && Snapshot(puzzle)[i][j] == 0 ==> Eligible(level, i, j)
    ensures |EmptyCells(Snapshot(puzzle))| == RemovalTarget(level, extra)
  {
    var board := new int[9, 9]((i, j) => 0);
    SnapshotIs(board, EmptyGrid());
    EmptyGridCompletable();
    var solved := Solve(board);
    assert solved;
    ghost var full := Snapshot(board);
    assert IsSolution(full) by {
      assert Consistent(EmptyGrid());
    }
    solvedGame := CopyBoard(board);
    var cellsToRemove := RemovalTarget(level, extra);
    FullHasNoEmptyCells(full);
    FullEligibleFilled(full, level);
    EligibleCountIsSize(level);
    ApplyStrategicRemovals(board, level, cellsToRemove);
    puzzle := board;
  }
}
