# Sudoku game core, modelled in Dafny

This project models the game logic of a browser Sudoku game (`script.js`):

- **Puzzle generation.**
  - `calculateDynamicDifficulty` says how many cells a level clears.
  - The randomized backtracking filler `solveSudoku` fills an empty board, checking each placement with `isValid` and ordering the digits it tries with the Fisher–Yates `shuffle`.
  - `applyStrategicRemovals` clears random cells that the level's spatial pattern admits.
- **Checking a board.** `validateBoard` lists the wrong filled cells as messages and says whether the board is complete. `highlightErrors` parses the cells back out of those messages.
- **Hints.** `findHintCell` and `provideHint` give at most three hints per session.
- **The solve button.** `solveGame` starts an interval whose callback reveals one cell per tick.
- **Session counters.** `checkGameProgress`, `showGameCompletionFeedback`, `resetGameState` and the button handlers keep the level, the solved count, the hints used and the "show errors" flag.

## Structure

- **Value model.** A board is a 9×9 grid of integers with 0 for an empty cell. Pure logic works on `Grid = seq<seq<int>>`.
- **In-place model.** The code that mutates boards in place works on `array2<int>`. `Boards.Snapshot` reads such a board as a grid, the way `getCurrentBoard` reads it.
- **Modules:**
  - `Grids`: sudoku rules. It defines consistency, solutions, what it means to be completable, the empty cells and the row-major first empty cell.
  - `Solutions`: every unit of a solution is a permutation of 1..9, and a concrete solution exists.
  - `Boards`: `isValid`, the row-major scan, the deep copy and single-cell writes on arrays.
  - `Solver`: `shuffle` and `solveSudoku`.
  - `Difficulty`: `calculateDynamicDifficulty`, the removal patterns, and the number of cells each pattern admits.
  - `Removal`: `applyStrategicRemovals`, both as written and in place.
  - `Generator`: `generateSudoku`.
  - `Validator`: `validateBoard`, the error messages and the `highlightErrors` parse.
  - `Hints`: `findHintCell`.
  - `Reveal`: the reveal interval callback, both as written and corrected.
  - `Session`: the session's state as a class, with one method per handler.

## Model

| member | source | states |
|---|---|---|
| Difficulty.BaseCellsToRemove | script.js:61-65 | The pre-multiplier count is 20 + 2·level capped at 65: it is one of the two, and no more than either. |
| Difficulty.CalculateDynamicDifficulty | script.js:59-75 | The count lies between the capped base and base·(level+9)/10, given the logarithm bounds. The strategic flag is set exactly when level > 5, and the symmetry flag exactly when level > 10. |
| Difficulty.BaseCellsToRemoveMonotone | script.js:61-65 | A higher level never asks for fewer cells before the multiplier. |
| Difficulty.BaseCellsToRemoveCapped | script.js:61-65 | The cap of 65 applies exactly from level 23 on. |
| Difficulty.FirstLevelCount | script.js:59-75 | At level 1 the multiplier is 1, so the count is 22. |
| Difficulty.Pattern | script.js:137-141 | The three spatial patterns: same diagonal class mod 3, (row+col) % 4 == 0, and abs(row−col) ≤ 2. How many cells each admits is proved in Difficulty.EligibleCountIsSize. |
| Difficulty.Eligible | script.js:148-153 | A filled cell may be cleared at any level up to 5, and above that only if the level's pattern admits it. Difficulty.StrategicFlagRestrictsCells proves when this restricts anything. |
| Difficulty.PatternIndex | script.js:148-150 | The pattern index min(floor(level/5), 2) is always 0, 1 or 2. |
| Difficulty.StrategicFlagRestrictsCells | script.js:152-153 | The strategic flag is set exactly when the pattern excludes some cell; without it, every cell is eligible. |
| Difficulty.DiagonalPatternUnused | script.js:138 | Pattern 0 (diagonal classes) is only selected at levels below 5, where every cell is eligible anyway, so it never restricts a removal. |
| Difficulty.EligibleCountIsSize | script.js:137-141 | The loop may clear 81 cells up to level 5. For levels 6..9 it may clear the 21 cells with (row+col) % 4 == 0, and from level 10 the 39 cells with abs(row−col) ≤ 2. |
| Difficulty.RemovalCountExceedsPattern | script.js:143-153 | Above level 5 the requested count is larger than the number of cells the pattern admits. |
| Difficulty.RemovalCountFitsUpToLevelFive | script.js:61-71 | Up to level 5 the requested count is at most 42, fewer than the 81 admitted cells. |
| Removal.DrawAsWritten | script.js:144-156 | One draw clears the drawn cell only if it is filled and eligible. removedCount plus the number of eligible filled cells stays the same. |
| Removal.LoopAsWritten | script.js:143-157 | The while loop fed a finite sequence of draws. removedCount never decreases, and a cell either keeps its value or becomes 0. Removal.LoopAsWrittenConserves and Removal.LoopAsWrittenNeverExits give the rest of its meaning. |
| Removal.LoopAsWrittenConserves | script.js:143-157 | Over any sequence of draws, removedCount plus the number of eligible filled cells is invariant. |
| Removal.LoopAsWrittenNeverExits | script.js:143-157 | Above level 5, removedCount stays below cellsToRemove after any number of draws, so the loop never exits. |
| Removal.ApplyStrategicRemovals | script.js:135-158 | Given enough eligible filled cells, the loop clears exactly cellsToRemove of them. Every changed cell is eligible and becomes empty; every other cell keeps its value. |
| Generator.RemovalTarget | script.js:166 | The corrected removal count never exceeds the eligible cells. It is at most the level's count and equals it up to level 5. |
| Generator.RemovalTargetByLevel | script.js:166 | Up to level 5 the target is the level's own count; above level 5 it is every cell of the pattern. |
| Generator.PuzzleOfSolution | script.js:161-168 | A puzzle cut from a solution is completable, and filling it from the solution gives the solution back. |
| Generator.GenerateSudoku | script.js:88-169 | The solved game is a valid complete grid and the puzzle agrees with it on every filled cell. Only eligible cells are empty, and exactly RemovalTarget of them. |
| Boards.Snapshot | script.js:421-427 | The abstraction of an array board as a 9×9 grid, cell by cell. It stands for `getCurrentBoard`'s read, for the reason given under "## Left out". |
| Boards.Write | script.js:275 | A write changes exactly the one cell. |
| Boards.IsValid | script.js:91-101 | Returns true exactly when the digit is absent from the cell's row, column and 3×3 box. |
| Boards.FirstEmptyCell | script.js:104-106 | The nested scan returns the row-major first empty cell, or reports that there is none exactly when the board is full. |
| Boards.CopyBoard | script.js:163 | The copy is a fresh board with the same contents. |
| Grids.PlaceKeepsConsistent | script.js:110-111 | Placing a digit that isValid admits keeps a consistent board consistent. |
| Grids.FirstEmptyIsFirst | script.js:104-106 | There is no first empty cell exactly when the grid is full. When there is one, it is empty and every earlier cell is filled. |
| Grids.CompletableHasViableDigit | script.js:108-118 | An empty cell of a completable grid has some digit that isValid admits and that leaves the grid completable. |
| Solutions.SolutionUnitsArePermutations | script.js:93-96 | Every row, column and box of a solution holds each digit 1..9 exactly once. |
| Solutions.EmptyGridCompletable | script.js:161-162 | The empty board can be completed, so solving it succeeds. |
| Solver.Shuffle | script.js:127-133 | The shuffle is a permutation of its input. |
| Solver.ShuffledDigits | script.js:108 | The shuffled list holds each of 1..9 exactly once. |
| Solver.Solve | script.js:103-125 | On success, the board completes its entry value and stays consistent if it was. On failure, the board is exactly as on entry and no solution extends it. |
| Solver.TryDigits | script.js:109-120 | Tries each digit in turn. On failure the board is unchanged, and none of the digits can both be placed and leave the board completable. |
| Validator.ErrorMessage | script.js:336 | The message `Incorrect number at (r+1, c+1)`. Validator.ParseErrorMessage proves that it names (r, c). |
| Validator.Decimal | script.js:336 | The template literal prints a non-empty string of decimal digits. |
| Validator.DecimalRoundTrip | script.js:413-414 | Reading a printed number with parseInt gives the number back. |
| Validator.ParseCell | script.js:412-415 | The first match of `\((\d+), (\d+)\)` with both numbers less one, or none. Validator.ParseErrorMessage proves what it returns on an error message. |
| Validator.ParseErrorMessage | script.js:412-415 | Parsing the message for cell (r, c) yields exactly (r, c). |
| Validator.HighlightedCells | script.js:407-419 | The forEach marks at most one cell per message, in message order. Validator.HighlightsOfMessages proves which cells. |
| Validator.HighlightsOfMessages | script.js:407-419 | highlightErrors marks exactly the cells the messages were made from, in the same order. |
| Validator.FilledUpTo | script.js:322-330 | Every listed cell is in range and filled, and it carries the board's value. Validator.CollectFilledCells proves the loop builds this list. |
| Validator.ErrorsOf | script.js:333-338 | The forEach pushes at most one message per filled cell. Validator.ErrorsAreMessages proves they are the messages for the wrong cells. |
| Validator.WrongCells | script.js:333-338 | The listed cells are in range. |
| Validator.Messages | script.js:336 | Gives one message per cell, naming that cell. |
| Validator.WrongUpToMembers | script.js:333-338 | A cell is listed exactly when it is filled and differs from the solution. |
| Validator.WrongUpToOrdered | script.js:322-338 | The listed cells come in strictly increasing row-major order. |
| Validator.ErrorsAreMessages | script.js:322-338 | The errors collected from the filled cells are the messages for the wrong cells. |
| Validator.ValidateBoard | script.js:318-351 | The errors are the messages for the wrong cells in row-major order. isComplete holds exactly when the board equals the solved game. |
| Validator.CollectFilledCells | script.js:322-330 | The nested loop collects the filled cells in row-major order. |
| Validator.CollectErrors | script.js:333-338 | The forEach pushes one message per filled cell that differs from the solution. |
| Validator.EqualsSolution | script.js:341-345 | Returns true exactly when every cell equals the solution's cell. |
| Validator.NoErrorsIffAgrees | script.js:333-345 | There are no errors exactly when the solution agrees with every filled cell. |
| Validator.SolvedBoardHasNoErrors | script.js:318-351 | The solved game itself has no errors. |
| Validator.SingleWrongEntry | script.js:333-345 | One wrong digit in an otherwise solved board gives exactly that one error, and the board is not complete. |
| Validator.ErrorsNameWrongCells | script.js:407-419 | Each error message parses back to its wrong cell. |
| Hints.FindHintCell | script.js:609-620 | A hint names a cell in range. |
| Hints.HintIsFirstEmptyCell | script.js:609-620 | There is no hint exactly when the game is full. A hint names the row-major first empty cell and carries the solved game's digit for it. |
| Hints.HintKeepsSolvable | script.js:596-597 | Applying a hint keeps the game consistent with the solution and leaves one empty cell fewer. |
| Reveal.TickAsWritten | script.js:464-502 | A reveal tick, as written, keeps the game a 9×9 grid. |
| Reveal.RunAsWrittenKeepsRunning | script.js:465 | While revealed plus empty cells is below 81, each tick keeps that sum and the interval never stops. |
| Reveal.RunAsWritten | script.js:464-502 | Successive as-written ticks: each adds at most one to the count. Reveal.RunAsWrittenKeepsRunning proves the interval stays set. |
| Reveal.Tick | script.js:464-502 | The corrected tick, which stops when no empty cell is left. A running tick stays running exactly when some cell is empty, and the count goes up by one exactly then. |
| Reveal.Run | script.js:464-502 | Successive corrected ticks: the count grows by at most one per tick, and a stopped reveal stays as it is. Reveal.RunFinishes proves when it stops and what it leaves. |
| Reveal.RevealAsWrittenNeverFinishes | script.js:449-507 | On a puzzle with any filled cell, the as-written reveal runs forever. |
| Reveal.RunFinishes | script.js:464-502 | The corrected reveal stops after one tick per empty cell plus one. By then it has counted each empty cell and filled the game from the solution. |
| Reveal.RevealEndsOnSolution | script.js:449-507 | Solving a puzzle cut from a solution reveals exactly its holes and ends on the solution. |
| Reveal.TickFillsHintCell | script.js:467-488 | A running tick fills the cell findHintCell would name, with the same digit. When no cell is empty, it stops. |
| Session.AfterCompletion | script.js:288-298 | A completion adds one solved puzzle. The level goes up by 2 when the new count is a multiple of 3, and by 1 otherwise. showGameCompletionFeedback (script.js:358) adds one of those. |
| Session.CompletionsAdvance | script.js:288-298 | After n completions, the solved count is up by n. The level is up by n, plus one for each multiple of 3 passed. |
| Session.LevelAfterSolving | script.js:18-19 | From the initial level 1 with nothing solved, n completions give level 1 + n + floor(n/3). |
| Session.Game.constructor | script.js:646-647 | Initial setup gives level 1, nothing solved, no hints used and a level-1 puzzle cut from a valid solution, by the corrected generator (the same as the source's at level 1). |
| Session.Game.CheckGameProgress | script.js:283-316 | The counters, the flag and the feedback are what `ProgressCheck` gives. If the board equals the solved game, the counters advance, the flag is cleared and the new level is shown. Otherwise, if the flag is set and some cells are wrong, the errors are shown with exactly the wrong cells highlighted; else the feedback is hidden. The board, hints and reveal are unchanged. |
| Session.Game.UpdateCellValue | script.js:274-279 | The cell takes the value, then the progress check runs on the new board: counters, flag and feedback are as `ProgressCheck` gives. Hints and reveal are unchanged. |
| Session.ProgressCheck | script.js:283-316 | The feedback is Solved exactly when the board equals the solved game, and the counters then advance as `AfterCompletion` says. Mistakes are shown exactly when the flag is set, the board is incomplete and some cells are wrong; they list exactly the wrong cells, and the messages parse back to them. |
| Session.Game.HandleCellClick | script.js:170-183 | Selecting a cell clears the flag and changes nothing else. |
| Session.Game.CheckButton | script.js:532-538 | Sets the flag, then the progress check runs: a complete board advances the counters and clears the flag; otherwise every wrong cell is reported, or nothing. Hints and reveal are unchanged. |
| Session.Game.FindHintCell | script.js:609-620 | The scan on the board returns the hint that Hints.FindHintCell specifies. |
| Session.Game.ProvideHint | script.js:569-607 | With 3 hints used or a full board, nothing changes. Otherwise the first empty cell gets its digit, hintsUsed goes up by one and the progress check runs on the new board, giving the counters, flag and feedback `ProgressCheck` gives. The reveal is unchanged either way. |
| Session.Game.SolveGame | script.js:449-463 | Clears the flag and starts the reveal from a count of 0. |
| Session.Game.RevealTick | script.js:464-502 | The board and counter move as the corrected Reveal.Tick says, not as the as-written callback (see "## Findings"). Finishing raises the level by one; the solved count, hints and flag are unchanged. |
| Session.Game.NewGame | script.js:429-447 | Generates a fresh puzzle and solved game for the current level with the corrected removal count (see "## Findings"). The counters and hintsUsed are kept, and the flag is cleared only by resetGameState. |

## Left out

- Rendering, the DOM, CSS animations, sounds, `logError` and the `try`/`catch` wrappers are not modelled. No modelled operation throws, so `safeGenerateSudoku`'s empty-board fallback is never taken.
- Timers are not modelled as such.
  - One call of `Session.Game.RevealTick` stands for one 100 ms callback of the reveal interval.
  - `resetGameState`, which runs 2 s after a completion, is `Session.Game.NewGame` with the flag reset.
  - The 5 s feedback fade is not modelled.
  - How the interval's callbacks interleave with clicks made while it runs is not modelled.
- `Math.random()` becomes a nondeterministic choice: the swap index in `Solver.Shuffle` and the cell drawn in `Removal.ApplyStrategicRemovals`. The as-written removal loop takes an arbitrary finite sequence of draws as a parameter instead.
- Removal.ApplyStrategicRemovals: each iteration draws among the filled eligible cells, because a draw of any other cell changes nothing in the source. The model does not count the number of draws, only their effect.
- `Math.log` and floating point are not modelled.
  - The multiplier's contribution floor(base·ln(level)/10) is a parameter `extra`, bounded by 0 ≤ ln(level) ≤ level − 1.
  - Difficulty.CalculateDynamicDifficulty states bounds on the count, not the exact floating-point value.
- `symmetryConstraints` and `complexityFactors` are computed or declared but never read by the source. The flag is returned and nothing else is modelled about it.
- `getCurrentBoard` takes a zero cell's value from the cell's `data-value` attribute. Every writer of `currentGame` (`updateCellValue`, the hint, the reveal, `renderBoard`) writes the same value to that attribute, and `fillSelectedCell`, the only writer of the attribute alone, is never called. So the model reads `currentGame` directly, and `fillSelectedCell` is not part of this model.
- The number pad reads the selected cell's row and column from the DOM. Session.Game.UpdateCellValue takes them as parameters and accepts any value, including on pre-filled cells, as the source does.
- `solveSudoku`'s inner `for … of nums` loop is the separate method `Solver.TryDigits`, and the unbounded recursion is bounded by the number of empty cells.
- Session.Game.NewGame does not reset hintsUsed, because the source never resets it.
- Session.Game.constructor, Session.Game.NewGame and Session.Game.RevealTick run the corrected generator and reveal from "## Findings". As written, generation above level 5 never returns and the reveal interval never stops, so the session model does not capture those hangs.

## Findings

| source | as written | input that shows it | evidently intended | confidence | as-written member | corrected member |
|---|---|---|---|---|---|---|
| script.js:464-502 | The reveal callback stops only once `revealedCells` reaches 81. It counts only the cells it fills, and a tick that finds no empty cell changes nothing. | The solve button on any generated puzzle: a level-1 puzzle has 22 empty cells, so `revealedCells` stops at 22 and the interval never clears. | Stop when no empty cell is left, then show the completion feedback. | not executed | Reveal.RevealAsWrittenNeverFinishes | Reveal.RunFinishes |
| script.js:135-158 | The removal loop runs until `cellsToRemove` cells are cleared. Above level 5 that count exceeds the cells the pattern admits: 32 or more against 21 for levels 6..9, and 40 or more against 39 from level 10. | Level 6: at least 32 cells requested, only 21 cells with (row+col) % 4 == 0, so the loop never exits. The page reaches level 6 after four solved puzzles (Session.LevelAfterSolving). | Clear at most the cells the pattern admits. | not executed | Removal.LoopAsWrittenNeverExits | Generator.RemovalTarget |
