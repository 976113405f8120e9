/**
 * `applyStrategicRemovals`: clear random non-empty cells that the level's
 * rule admits until `cellsToRemove` of them are cleared.
 *
 * The loop as written is modelled on values, draw by draw, to show that above
 * level 5 its exit condition is never reached; the in-place loop is modelled
 * under the precondition that enough eligible cells are filled, which the
 * generator establishes by capping the count.
 */
module Removal {
  import opened Grids
  import opened Boards
  import opened Difficulty

  /** The non-empty cells of g that the level's rule lets the loop clear. */
  ghost function EligibleFilled(g: Grid, level: int): set<(int, int)>
    requires IsGrid(g) && level >= 0
  {
    set i, j | 0 <= i < 9 && 0 <= j < 9 && g[i][j] != 0 && Eligible(level, i, j) :: (i, j)
  }

  /** Clearing an eligible filled cell takes exactly that cell out of the eligible filled ones. */
  lemma ClearShrinksEligibleFilled(g: Grid, level: int, r: int, c: int)
    requires IsGrid(g) && level >= 0 && 0 <= r < 9 && 0 <= c < 9 && g[r][c] != 0 && Eligible(level, r, c)
    ensures (r, c) in EligibleFilled(g, level)
    ensures EligibleFilled(SetCell(g, r, c, 0), level) == EligibleFilled(g, level) - {(r, c)}
  {
    assert (r, c) in EligibleFilled(g, level);
  }

  // ---------------------------------------------------------------------
  // The loop as written

  /** The board and `removedCount` between two draws. */
  datatype RemovalState = RemovalState(grid: Grid, removedCount: int)

  predicate ValidPicks(picks: seq<(int, int)>) {
    forall k :: 0 <= k < |picks| ==> 0 <= picks[k].0 < 9 && 0 <= picks[k].1 < 9
  }

  /** One iteration: the drawn cell is cleared and counted if it is filled and eligible. */
  function DrawAsWritten(s: RemovalState, level: int, row: int, col: int): (t: RemovalState)
    requires IsGrid(s.grid) && level >= 0 && 0 <= row < 9 && 0 <= col < 9
    ensures IsGrid(t.grid)
    ensures t.removedCount + |EligibleFilled(t.grid, level)| == s.removedCount + |EligibleFilled(s.grid, level)|
  {
    if s.grid[row][col] != 0 && Eligible(level, row, col) then
      ClearShrinksEligibleFilled(s.grid, level, row, col);
      RemovalState(SetCell(s.grid, row, col, 0), s.removedCount + 1)
    else
      s
  }

  /**
   * The while loop as written, fed a finite sequence of random draws: it
   * keeps drawing while removedCount < cellsToRemove.
   */
  function LoopAsWritten(s: RemovalState, level: int, cellsToRemove: int, picks: seq<(int, int)>): (t: RemovalState)
    requires IsGrid(s.grid) && level >= 0 && ValidPicks(picks)
    ensures IsGrid(t.grid)
    ensures s.removedCount <= t.removedCount
    ensures forall i, j :: 0 <= i < 9 && 0 <= j < 9 ==> t.grid[i][j] == s.grid[i][j] || t.grid[i][j] == 0
    decreases |picks|
  {
    if |picks| == 0 || s.removedCount >= cellsToRemove then s
    else LoopAsWritten(DrawAsWritten(s, level, picks[0].0, picks[0].1), level, cellsToRemove, picks[1..])
  }

  /** Every draw keeps removedCount plus the eligible filled cells constant. */
  lemma {:induction false} LoopAsWrittenConserves(s: RemovalState, level: int, cellsToRemove: int, picks: seq<(int, int)>)
    requires IsGrid(s.grid) && level >= 0 && ValidPicks(picks)
    ensures var t := LoopAsWritten(s, level, cellsToRemove, picks);
      t.removedCount + |EligibleFilled(t.grid, level)| == s.removedCount + |EligibleFilled(s.grid, level)|
    decreases |picks|
  {
    if |picks| > 0 && s.removedCount < cellsToRemove {
      LoopAsWrittenConserves(DrawAsWritten(s, level, picks[0].0, picks[0].1), level, cellsToRemove, picks[1..]);
    }
  }

  /**
   * Above level 5, however many draws are made, removedCount stays below
   * cellsToRemove: the loop's condition never becomes false and the loop
   * never ends.
   */
  lemma LoopAsWrittenNeverExits(g: Grid, level: int, extra: int, picks: seq<(int, int)>)
    requires IsGrid(g) && level > 5 && LogBonus(level, BaseCellsToRemove(level), extra) && ValidPicks(picks)
    ensures var cellsToRemove := CalculateDynamicDifficulty(level, extra).cellsToRemove;
      LoopAsWritten(RemovalState(g, 0), level, cellsToRemove, picks).removedCount < cellsToRemove
  {
    var cellsToRemove := CalculateDynamicDifficulty(level, extra).cellsToRemove;
    LoopAsWrittenConserves(RemovalState(g, 0), level, cellsToRemove, picks);
    assert EligibleFilled(g, level) <= EligibleCells(level);
    SubsetSize(EligibleFilled(g, level), EligibleCells(level));
    RemovalCountExceedsPattern(level, extra);
  }

  lemma SubsetSize<T>(a: set<T>, b: set<T>)
    requires a <= b
    ensures |a| <= |b|
  {
    assert b == a + (b - a);
  }

  // ---------------------------------------------------------------------
  // The loop in place

  /** h is g with exactly the cells of `cleared` emptied. */
  ghost predicate ClearedFrom(g: Grid, h: Grid, cleared: set<(int, int)>)
    requires IsGrid(g) && IsGrid(h)
  {
    forall i, j :: 0 <= i < 9 && 0 <= j < 9 ==> h[i][j] == if (i, j) in cleared then 0 else g[i][j]
  }

  /** Emptying eligible filled cells moves them from the eligible filled cells to the empty ones. */
  lemma ClearedSets(g: Grid, h: Grid, level: int, cleared: set<(int, int)>)
    requires IsGrid(g) && IsGrid(h) && level >= 0
    requires cleared <= EligibleFilled(g, level) && ClearedFrom(g, h, cleared)
    ensures EligibleFilled(h, level) == EligibleFilled(g, level) - cleared
    ensures EmptyCells(h) == EmptyCells(g) + cleared && EmptyCells(g) !! cleared
    ensures |EligibleFilled(h, level)| == |EligibleFilled(g, level)| - |cleared|
    ensures |EmptyCells(h)| == |EmptyCells(g)| + |cleared|
    ensures Extends(g, h)
    ensures forall i, j :: 0 <= i < 9 && 0 <= j < 9 && h[i][j] != g[i][j] ==> Eligible(level, i, j)
  {
    assert EligibleFilled(h, level) == EligibleFilled(g, level) - cleared;
    assert EmptyCells(h) == EmptyCells(g) + cleared;
    assert EligibleFilled(g, level) == EligibleFilled(h, level) + cleared;
  }

  /** Emptying one more eligible filled cell. */
  lemma ClearOneMore(g: Grid, h: Grid, level: int, cleared: set<(int, int)>, r: int, c: int)
    requires IsGrid(g) && IsGrid(h) && level >= 0 && 0 <= r < 9 && 0 <= c < 9
    requires cleared <= EligibleFilled(g, level) && ClearedFrom(g, h, cleared)
    requires h[r][c] != 0 && Eligible(level, r, c)
    ensures (r, c) !in cleared && cleared + {(r, c)} <= EligibleFilled(g, level)
    ensures ClearedFrom(g, SetCell(h, r, c, 0), cleared + {(r, c)})
  {
    assert (r, c) in EligibleFilled(g, level);
  }

  /**
   * applyStrategicRemovals with the random draw taken among the cells that
   * the draw can affect (a draw of an empty or ineligible cell changes
   * nothing): exactly cellsToRemove eligible filled cells become empty and
   * every other cell keeps its value.
   */
  method ApplyStrategicRemovals(board: array2<int>, level: int, cellsToRemove: int)
    requires IsBoard(board) && level >= 0
    requires 0 <= cellsToRemove <= |EligibleFilled(Snapshot(board), level)|
    modifies board
    ensures Extends(old(Snapshot(board)), Snapshot(board))
    ensures forall i, j :: 0 <= i < 9 && 0 <= j < 9 && Snapshot(board)[i][j] != old(Snapshot(board))[i][j] ==>
      Eligible(level, i, j)
    ensures |EmptyCells(Snapshot(board))| == |EmptyCells(old(Snapshot(board)))| + cellsToRemove
  {
    ghost var start := Snapshot(board);
    ghost var cleared: set<(int, int)> := {};
    var removedCount := 0;
    while removedCount < cellsToRemove
      invariant 0 <= removedCount <= cellsToRemove
      invariant cleared <= EligibleFilled(start, level) && |cleared| == removedCount
      invariant ClearedFrom(start, Snapshot(board), cleared)
      decreases cellsToRemove - removedCount
    {
      ClearedSets(start, Snapshot(board), level, cleared);
      ghost var cell :| cell in EligibleFilled(Snapshot(board), level);
      assert board[cell.0, cell.1] != 0 && Eligible(level, cell.0, cell.1);
      var row, col :| 0 <= row < 9 && 0 <= col < 9 && board[row, col] != 0 && Eligible(level, row, col);
      ClearOneMore(start, Snapshot(board), level, cleared, row, col);
      Write(board, row, col, 0);
      cleared := cleared + {(row, col)};
      removedCount := removedCount + 1;
    }
    ClearedSets(start, Snapshot(board), level, cleared);
  }
}
