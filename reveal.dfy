/**
 * The reveal interval `solveGame` starts: every 100 ms a callback fills the
 * first empty cell with the solved game's digit and counts it in
 * `revealedCells`; once `revealedCells` reaches 81 it clears the interval and
 * shows the completion feedback. One callback is one tick; a run is a number
 * of ticks.
 */
module Reveal {
  import opened Wrappers
  import opened Grids
  import opened Hints

  const TotalCells := 81

  /** The game, the reveal counter, and whether the interval is still set. */
  datatype RevealState = RevealState(game: Grid, revealedCells: int, running: bool)

  // ---------------------------------------------------------------------
  // The callback as written: it stops only when revealedCells reaches 81

  function TickAsWritten(s: RevealState, solved: Grid): (t: RevealState)
    requires IsGrid(s.game) && IsGrid(solved)
    ensures IsGrid(t.game)
  {
    if !s.running then s
    else if s.revealedCells < TotalCells then
      match FindHintCell(s.game, solved)
      case Some(h) => RevealState(SetCell(s.game, h.row, h.col, h.number), s.revealedCells + 1, true)
      case None => s
    else RevealState(s.game, s.revealedCells, false)
  }

  function RunAsWritten(s: RevealState, solved: Grid, ticks: nat): (t: RevealState)
    requires IsGrid(s.game) && IsGrid(solved)
    ensures IsGrid(t.game)
    ensures s.revealedCells <= t.revealedCells <= s.revealedCells + ticks
    decreases ticks
  {
    if ticks == 0 then s else RunAsWritten(TickAsWritten(s, solved), solved, ticks - 1)
  }

  /**
   * A running reveal that has counted fewer than 81 cells, counting the empty
   * ones still to come, is still running after any number of ticks: every
   * tick either reveals one cell (the sum stays the same) or finds none
   * (nothing changes), so revealedCells never reaches 81.
   */
  lemma {:induction false} RunAsWrittenKeepsRunning(s: RevealState, solved: Grid, ticks: nat)
    requires IsGrid(s.game) && IsGrid(solved) && Full(solved)
    requires s.running && s.revealedCells + |EmptyCells(s.game)| < TotalCells
    ensures var t := RunAsWritten(s, solved, ticks);
      t.running && t.revealedCells + |EmptyCells(t.game)| == s.revealedCells + |EmptyCells(s.game)|
    decreases ticks
  {
    if ticks > 0 {
      var t := TickAsWritten(s, solved);
      HintIsFirstEmptyCell(s.game, solved);
      if FindHintCell(s.game, solved).Some? {
        var h := FindHintCell(s.game, solved).value;
        FillShrinksEmptyCells(s.game, h.row, h.col, h.number);
      }
      RunAsWrittenKeepsRunning(t, solved, ticks - 1);
    }
  }

  /**
   * The solve button on any puzzle with a filled cell: the interval is never
   * cleared and the completion feedback never shown, however long it runs.
   */
  lemma RevealAsWrittenNeverFinishes(puzzle: Grid, solved: Grid, ticks: nat)
    requires IsGrid(puzzle) && IsSolution(solved) && |EmptyCells(puzzle)| < TotalCells
    ensures RunAsWritten(RevealState(puzzle, 0, true), solved, ticks).running
  {
    RunAsWrittenKeepsRunning(RevealState(puzzle, 0, true), solved, ticks);
  }

  // ---------------------------------------------------------------------
  // The callback corrected: it stops when no empty cell is left

  function Tick(s: RevealState, solved: Grid): (t: RevealState)
    requires IsGrid(s.game) && IsGrid(solved)
    ensures IsGrid(t.game)
    ensures s.running ==> (t.running <==> !Full(s.game))
    ensures t.revealedCells == s.revealedCells + (if s.running && !Full(s.game) then 1 else 0)
  {
    if !s.running then s
    else
      HintIsFirstEmptyCell(s.game, solved);
      match FindHintCell(s.game, solved)
      case Some(h) => RevealState(SetCell(s.game, h.row, h.col, h.number), s.revealedCells + 1, true)
      case None => RevealState(s.game, s.revealedCells, false)
  }

  function Run(s: RevealState, solved: Grid, ticks: nat): (t: RevealState)
    requires IsGrid(s.game) && IsGrid(solved)
    ensures IsGrid(t.game)
    ensures s.revealedCells <= t.revealedCells <= s.revealedCells + ticks
    ensures !s.running ==> t == s
    decreases ticks
  {
    if ticks == 0 then s else Run(Tick(s, solved), solved, ticks - 1)
  }

  /** Revealing a cell from the solution does not change what filling the game from the solution gives. */
  lemma FillFromAfterReveal(g: Grid, s: Grid, r: int, c: int)
    requires IsGrid(g) && IsGrid(s) && 0 <= r < 9 && 0 <= c < 9 && g[r][c] == 0
    ensures FillFrom(SetCell(g, r, c, s[r][c]), s) == FillFrom(g, s)
  {
    var a, b := FillFrom(SetCell(g, r, c, s[r][c]), s), FillFrom(g, s);
    forall i | 0 <= i < 9 ensures a[i] == b[i] {
      assert forall j :: 0 <= j < 9 ==> a[i][j] == b[i][j];
    }
  }

  /** A full game is what filling it from anything gives. */
  lemma FillFromFull(g: Grid, s: Grid)
    requires IsGrid(g) && IsGrid(s) && Full(g)
    ensures FillFrom(g, s) == g
  {
    var a := FillFrom(g, s);
    forall i | 0 <= i < 9 ensures a[i] == g[i] {
      assert forall j :: 0 <= j < 9 ==> a[i][j] == g[i][j];
    }
  }

  /**
   * A running reveal stops after one tick per empty cell plus one: it has
   * then counted every empty cell and the game is the puzzle filled from the
   * solution.
   */
  lemma {:induction false} RunFinishes(s: RevealState, solved: Grid)
    requires IsGrid(s.game) && IsGrid(solved) && Full(solved) && s.running
    ensures var t := Run(s, solved, |EmptyCells(s.game)| + 1);
      && !t.running
      && t.revealedCells == s.revealedCells + |EmptyCells(s.game)|
      && t.game == FillFrom(s.game, solved)
    decreases |EmptyCells(s.game)|
  {
    HintIsFirstEmptyCell(s.game, solved);
    match FindHintCell(s.game, solved)
    case None =>
      FullHasNoEmptyCells(s.game);
      FillFromFull(s.game, solved);
    case Some(h) =>
      FillShrinksEmptyCells(s.game, h.row, h.col, h.number);
      FillFromAfterReveal(s.game, solved, h.row, h.col);
      RunFinishes(Tick(s, solved), solved);
  }

  /** Solving a puzzle cut from a solution reveals exactly its holes and ends on the solution. */
  lemma RevealEndsOnSolution(puzzle: Grid, solved: Grid)
    requires IsGrid(puzzle) && IsSolution(solved) && Extends(solved, puzzle)
    ensures var t := Run(RevealState(puzzle, 0, true), solved, |EmptyCells(puzzle)| + 1);
      !t.running && t.revealedCells == |EmptyCells(puzzle)| && t.game == solved
  {
    RunFinishes(RevealState(puzzle, 0, true), solved);
    FillFromSolution(puzzle, solved);
  }

  /** Each tick of a running reveal fills the cell a hint would give, with the hint's digit. */
  lemma TickFillsHintCell(s: RevealState, solved: Grid)
    requires IsGrid(s.game) && IsGrid(solved) && s.running
    ensures FindHintCell(s.game, solved).Some? ==>
      var h := FindHintCell(s.game, solved).value;
      Tick(s, solved).game == SetCell(s.game, h.row, h.col, h.number) && Tick(s, solved).running
    ensures FindHintCell(s.game, solved).None? ==> Tick(s, solved) == RevealState(s.game, s.revealedCells, false)
  {
  }
}
