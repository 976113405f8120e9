/**
 * The game session: the current puzzle and its solved game, the level, the
 * number of puzzles solved, the hints used, the flag that makes a check show
 * its errors, and the reveal interval. Each method is one handler or function
 * of the page that changes this state.
 */
module Session {
  import opened Wrappers
  import opened Grids
  import opened Boards
  import opened Difficulty
  import opened Generator
  import opened Validator
  import opened Hints
  import opened Reveal

  const MaxHints := 3

  // ---------------------------------------------------------------------
  // Level progression

  /** The two counters a completed puzzle changes. */
  datatype Progress = Progress(level: int, solved: int)

  /**
   * checkGameProgress on a complete board: one more puzzle solved, one more
   * level when the count reaches a multiple of 3; then
   * showGameCompletionFeedback(true) adds one more level.
   */
  function AfterCompletion(p: Progress): (q: Progress)
    ensures q.solved == p.solved + 1
    ensures p.level + 1 <= q.level <= p.level + 2
    ensures q.level == p.level + 2 <==> q.solved % 3 == 0
  {
    var solved := p.solved + 1;
    var level := if solved % 3 == 0 then p.level + 1 else p.level;
    Progress(level + 1, solved)
  }

  function AfterCompletions(p: Progress, n: nat): Progress {
    if n == 0 then p else AfterCompletion(AfterCompletions(p, n - 1))
  }

  /** After n completions the level has gone up once per puzzle plus once per multiple of 3 passed. */
  lemma {:induction false} CompletionsAdvance(p: Progress, n: nat)
    requires p.solved >= 0
    ensures AfterCompletions(p, n) == Progress(p.level + n + ((p.solved + n) / 3 - p.solved / 3), p.solved + n)
  {
    if n > 0 {
      CompletionsAdvance(p, n - 1);
      var s := p.solved + n;
      assert (s % 3 == 0 ==> s / 3 == (s - 1) / 3 + 1) && (s % 3 != 0 ==> s / 3 == (s - 1) / 3);
    }
  }

  /** From a fresh session, n solved puzzles put the player at level 1 + n + n / 3. */
  lemma LevelAfterSolving(n: nat)
    ensures AfterCompletions(Progress(1, 0), n) == Progress(1 + n + n / 3, n)
  {
    CompletionsAdvance(Progress(1, 0), n);
  }

  // ---------------------------------------------------------------------
  // The session

  /** What the feedback area shows after a check. */
  datatype Feedback =
    | Solved(level: int)
    | Mistakes(errors: seq<string>, highlighted: seq<(int, int)>)
    | Hidden

  /** What the progress check leaves behind: the counters, the errors flag and the feedback shown. */
  datatype Checked = Checked(standing: Progress, showErrors: bool, feedback: Feedback)

  /**
   * checkGameProgress on `board`: a board equal to the solved game completes
   * the puzzle (counters advance, errors flag cleared, the new level shown);
   * otherwise, when the errors flag is set and some cells are wrong, their
   * messages are shown with exactly those cells highlighted, and else the
   * feedback is hidden; the counters and the flag then stay as they were.
   */
  function ProgressCheck(board: Grid, solved: Grid, p: Progress, showErrors: bool): (r: Checked)
    requires IsGrid(board) && IsGrid(solved)
    ensures r.feedback.Solved? <==> board == solved
    ensures r.feedback.Mistakes? ==> showErrors && r.feedback.highlighted == WrongCells(board, solved) && r.feedback.highlighted != []
    ensures showErrors && board != solved && WrongCells(board, solved) != [] ==> r.feedback.Mistakes?
    ensures r.feedback.Mistakes? ==> HighlightedCells(r.feedback.errors) == r.feedback.highlighted
    ensures r.standing == if board == solved then AfterCompletion(p) else p
  {
    if board == solved then
      var q := AfterCompletion(p);
      Checked(q, false, Solved(q.level))
    else if showErrors && WrongCells(board, solved) != [] then
      var wrong := WrongCells(board, solved);
      HighlightsOfMessages(wrong);
      Checked(p, showErrors, Mistakes(Messages(wrong), wrong))
    else
      Checked(p, showErrors, Hidden)
  }

  class Game {
    var currentGame: array2<int>
    var solvedGame: array2<int>
    var currentLevel: int
    var totalSolvedPuzzles: int
    var hintsUsed: int
    var showErrorsOnCheck: bool
    /** The reveal interval's counter, and whether the interval is set. */
    var revealedCells: int
    var revealing: bool

    ghost predicate Valid()
      reads this, currentGame, solvedGame
    {
      && IsBoard(currentGame) && IsBoard(solvedGame) && currentGame != solvedGame
      && IsSolution(Snapshot(solvedGame))
      && currentLevel >= 1 && totalSolvedPuzzles >= 0 && hintsUsed >= 0
    }

    function Standing(): Progress
      reads this
    {
      Progress(currentLevel, totalSolvedPuzzles)
    }

    function RevealView(): RevealState
      reads this, currentGame
      requires IsBoard(currentGame)
    {
      RevealState(Snapshot(currentGame), revealedCells, revealing)
    }

    /** The page's initial setup: level 1, nothing solved, no hint used, a level-1 puzzle. */
    constructor(extra: int)
      requires LogBonus(1, BaseCellsToRemove(1), extra)
      ensures Valid() && fresh(currentGame) && fresh(solvedGame)
      ensures Standing() == Progress(1, 0) && hintsUsed == 0 && !showErrorsOnCheck && !revealing
      ensures Extends(Snapshot(solvedGame), Snapshot(currentGame))
      ensures |EmptyCells(Snapshot(currentGame))| == RemovalTarget(1, extra)
    {
      var puzzle, solution := GenerateSudoku(1, extra);
      currentGame, solvedGame := puzzle, solution;
      currentLevel, totalSolvedPuzzles, hintsUsed := 1, 0, 0;
      showErrorsOnCheck := false;
      revealedCells, revealing := 0, false;
    }

    /**
     * checkGameProgress: a board equal to the solved game completes the
     * puzzle (counters advance, errors flag cleared); otherwise, when the
     * check button asked for errors and there are some, they are shown with
     * exactly the wrong cells highlighted; the board itself is not changed.
     */
    method CheckGameProgress() returns (feedback: Feedback)
      requires Valid()
      modifies this
      ensures Valid() && currentGame == old(currentGame) && solvedGame == old(solvedGame)
      ensures hintsUsed == old(hintsUsed) && revealedCells == old(revealedCells) && revealing == old(revealing)
      ensures Checked(Standing(), showErrorsOnCheck, feedback)
           == ProgressCheck(Snapshot(currentGame), Snapshot(solvedGame), old(Standing()), old(showErrorsOnCheck))
    {
      var validation := ValidateBoard(Snapshot(currentGame), Snapshot(solvedGame));
      if validation.isComplete {
        totalSolvedPuzzles := totalSolvedPuzzles + 1;
        if totalSolvedPuzzles % 3 == 0 {
          currentLevel := currentLevel + 1;
        }
        currentLevel := currentLevel + 1;
        feedback := Solved(currentLevel);
        showErrorsOnCheck := false;
      } else if showErrorsOnCheck && |validation.errors| > 0 {
        HighlightsOfMessages(WrongCells(Snapshot(currentGame), Snapshot(solvedGame)));
        feedback := Mistakes(validation.errors, HighlightedCells(validation.errors));
      } else {
        feedback := Hidden;
      }
    }

    /** updateCellValue: the cell takes the value (no check for given cells), then the progress check. */
    method UpdateCellValue(row: int, col: int, value: int) returns (feedback: Feedback)
      requires Valid() && 0 <= row < 9 && 0 <= col < 9
      modifies this, currentGame
      ensures Valid() && currentGame == old(currentGame) && solvedGame == old(solvedGame)
      ensures Snapshot(currentGame) == SetCell(old(Snapshot(currentGame)), row, col, value)
      ensures hintsUsed == old(hintsUsed) && revealedCells == old(revealedCells) && revealing == old(revealing)
      ensures Checked(Standing(), showErrorsOnCheck, feedback)
           == ProgressCheck(Snapshot(currentGame), Snapshot(solvedGame), old(Standing()), old(showErrorsOnCheck))
    {
      Write(currentGame, row, col, value);
      feedback := CheckGameProgress();
    }

    /** handleCellClick: selecting a cell hides the errors until the next check. */
    method HandleCellClick()
      modifies this
      ensures !showErrorsOnCheck
      ensures currentGame == old(currentGame) && solvedGame == old(solvedGame) && Standing() == old(Standing())
      ensures hintsUsed == old(hintsUsed) && revealedCells == old(revealedCells) && revealing == old(revealing)
    {
      showErrorsOnCheck := false;
    }

    /** The check button: ask for errors, then the progress check. */
    method CheckButton() returns (feedback: Feedback)
      requires Valid()
      modifies this
      ensures Valid() && currentGame == old(currentGame) && solvedGame == old(solvedGame)
      ensures hintsUsed == old(hintsUsed) && revealedCells == old(revealedCells) && revealing == old(revealing)
      ensures Checked(Standing(), showErrorsOnCheck, feedback)
           == ProgressCheck(Snapshot(currentGame), Snapshot(solvedGame), old(Standing()), true)
    {
      showErrorsOnCheck := true;
      feedback := CheckGameProgress();
    }

    /** findHintCell: the row-major scan for the first empty cell of the current game. */
    method FindHintCell() returns (hint: Option<Hint>)
      requires Valid()
      ensures hint == Hints.FindHintCell(Snapshot(currentGame), Snapshot(solvedGame))
    {
      var found, row, col := FirstEmptyCell(currentGame);
      if found {
        hint := Some(Hint(row, col, solvedGame[row, col]));
      } else {
        hint := None;
      }
    }

    /**
     * provideHint: with hints left and an empty cell, the first empty cell
     * takes its solution digit and one more hint is used, then the progress
     * check; otherwise nothing changes.
     */
    method ProvideHint() returns (feedback: Option<Feedback>)
      requires Valid()
      modifies this, currentGame
      ensures Valid() && currentGame == old(currentGame) && solvedGame == old(solvedGame)
      ensures var hint := Hints.FindHintCell(old(Snapshot(currentGame)), Snapshot(solvedGame));
        if old(hintsUsed) >= MaxHints || hint.None? then
          && feedback.None? && Snapshot(currentGame) == old(Snapshot(currentGame))
          && hintsUsed == old(hintsUsed) && Standing() == old(Standing())
          && showErrorsOnCheck == old(showErrorsOnCheck)
        else
          && feedback.Some?
          && Snapshot(currentGame) == SetCell(old(Snapshot(currentGame)), hint.value.row, hint.value.col, hint.value.number)
          && hintsUsed == old(hintsUsed) + 1
          && Checked(Standing(), showErrorsOnCheck, feedback.value)
             == ProgressCheck(Snapshot(currentGame), Snapshot(solvedGame), old(Standing()), old(showErrorsOnCheck))
      ensures revealedCells == old(revealedCells) && revealing == old(revealing)
    {
      if hintsUsed >= MaxHints {
        return None;
      }
      var hint := FindHintCell();
      if hint.None? {
        return None;
      }
      Write(currentGame, hint.value.row, hint.value.col, hint.value.number);
      hintsUsed := hintsUsed + 1;
      var result := CheckGameProgress();
      feedback := Some(result);
    }

    /** solveGame: clear the errors flag and set the reveal interval going from a zero count. */
    method SolveGame()
      modifies this
      ensures revealing && revealedCells == 0 && !showErrorsOnCheck
      ensures currentGame == old(currentGame) && solvedGame == old(solvedGame) && Standing() == old(Standing())
      ensures hintsUsed == old(hintsUsed)
    {
      showErrorsOnCheck := false;
      revealedCells := 0;
      revealing := true;
    }

    /**
     * One callback of the reveal interval, stopping once no empty cell is
     * left: the board and counter move as `Reveal.Tick` says, and finishing
     * shows the completion feedback, which raises the level.
     */
    method RevealTick() returns (finished: bool)
      requires Valid()
      modifies this, currentGame
      ensures Valid() && currentGame == old(currentGame) && solvedGame == old(solvedGame)
      ensures RevealView() == Tick(old(RevealView()), Snapshot(solvedGame))
      ensures finished <==> old(revealing) && !revealing
      ensures currentLevel == old(currentLevel) + (if finished then 1 else 0)
      ensures totalSolvedPuzzles == old(totalSolvedPuzzles) && hintsUsed == old(hintsUsed)
      ensures showErrorsOnCheck == old(showErrorsOnCheck)
    {
      if !revealing {
        return false;
      }
      var hint := FindHintCell();
      match hint
      case Some(h) =>
        Write(currentGame, h.row, h.col, h.number);
        revealedCells := revealedCells + 1;
        finished := false;
      case None =>
        revealing := false;
        currentLevel := currentLevel + 1;
        finished := true;
    }

    /**
     * resetGameState, run after the completion feedback, and the new-game
     * button (which keeps the errors flag): a fresh puzzle for the current
     * level, its solution becoming the solved game. Hints used are not reset.
     */
    method NewGame(extra: int, resetFlag: bool)
      requires Valid() && LogBonus(currentLevel, BaseCellsToRemove(currentLevel), extra)
      modifies this
      ensures Valid() && fresh(currentGame) && fresh(solvedGame)
      ensures Standing() == old(Standing()) && hintsUsed == old(hintsUsed)
      ensures Extends(Snapshot(solvedGame), Snapshot(currentGame))
      ensures forall i, j :: 0 <= i < 9 && 0 <= j < 9 && Snapshot(currentGame)[i][j] == 0 ==> Eligible(currentLevel, i, j)
      ensures |EmptyCells(Snapshot(currentGame))| == RemovalTarget(currentLevel, extra)
      ensures showErrorsOnCheck == if resetFlag then false else old(showErrorsOnCheck)
      ensures revealedCells == old(revealedCells) && revealing == old(revealing)
    {
      var puzzle, solution := GenerateSudoku(currentLevel, extra);
      currentGame, solvedGame := puzzle, solution;
      if resetFlag {
        showErrorsOnCheck := false;
      }
    }
  }
}
