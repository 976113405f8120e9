/**
 * `calculateDynamicDifficulty` and the cell-eligibility rule of
 * `applyStrategicRemovals`: how many cells a level asks to clear, and which
 * cells the level's spatial pattern lets the removal loop clear.
 */
module Difficulty {

  const BaseRemoveCells := 20
  const CellRemovalIncrement := 2
  /** The cap on the removal count before the complexity multiplier. */
  const MaxRemoveCells := 65

  /** min(baseRemoveCells + level * cellRemovalIncrement, 65). */
  function BaseCellsToRemove(level: int): (n: int)
    ensures n <= MaxRemoveCells && n <= BaseRemoveCells + level * CellRemovalIncrement
    ensures n == MaxRemoveCells || n == BaseRemoveCells + level * CellRemovalIncrement
  {
    var uncapped := BaseRemoveCells + level * CellRemovalIncrement;
    if uncapped < MaxRemoveCells then uncapped else MaxRemoveCells
  }

  /**
   * `extra` stands for floor(base * ln(level) / 10), the cells the complexity
   * multiplier 1 + ln(level) / 10 adds to an integer base (so that
   * floor(base * multiplier) == base + extra). The bounds are those of the
   * logarithm on levels from 1 on: 0 == ln 1 <= ln level <= level - 1.
   */
  ghost predicate LogBonus(level: int, base: int, extra: int) {
    0 <= extra && 10 * extra <= base * (level - 1)
  }

  /** The object `calculateDynamicDifficulty` returns. */
  datatype Parameters = Parameters(cellsToRemove: int, strategicRemovals: bool, symmetryConstraints: bool)

  /**
   * The removal count is the capped base scaled by the multiplier, so it lies
   * between the base and base * (level + 9) / 10; the pattern filter is on
   * from level 6 and the symmetry flag from level 11.
   */
  function CalculateDynamicDifficulty(level: int, extra: int): (p: Parameters)
    requires level >= 1 && LogBonus(level, BaseCellsToRemove(level), extra)
    ensures BaseCellsToRemove(level) <= p.cellsToRemove
    ensures 10 * p.cellsToRemove <= BaseCellsToRemove(level) * (level + 9)
    ensures p.strategicRemovals <==> level > 5
    ensures p.symmetryConstraints <==> level > 10
  {
    Parameters(BaseCellsToRemove(level) + extra, level > 5, level > 10)
  }

  /** A higher level never asks for fewer cells before the multiplier. */
  lemma BaseCellsToRemoveMonotone(level1: int, level2: int)
    requires level1 <= level2
    ensures BaseCellsToRemove(level1) <= BaseCellsToRemove(level2)
  {
  }

  /** The cap is reached exactly from level 23 on. */
  lemma BaseCellsToRemoveCapped(level: int)
    ensures BaseCellsToRemove(level) == MaxRemoveCells <==> level >= 23
  {
  }

  /** At level 1 the multiplier is 1: the count is the base, 22. */
  lemma FirstLevelCount(extra: int)
    requires LogBonus(1, BaseCellsToRemove(1), extra)
    ensures CalculateDynamicDifficulty(1, extra).cellsToRemove == 22
  {
  }

  // ---------------------------------------------------------------------
  // Which cells the removal loop may clear

  /** min(floor(level / 5), 2): the pattern a level uses. */
  function PatternIndex(level: int): (k: int)
    requires level >= 0
    ensures 0 <= k <= 2
  {
    if level / 5 < 2 then level / 5 else 2
  }

  /** The three strategic patterns: diagonal classes, checkerboard-like, near-diagonal. */
  predicate Pattern(index: int, row: int, col: int) {
    if index == 0 then row % 3 == col % 3
    else if index == 1 then (row + col) % 4 == 0
    else -2 <= row - col <= 2
  }

  /** A non-empty cell the loop may clear: any cell up to level 5, a cell of the level's pattern above. */
  predicate Eligible(level: int, row: int, col: int)
    requires level >= 0
  {
    level <= 5 || Pattern(PatternIndex(level), row, col)
  }

  ghost function EligibleCells(level: int): set<(int, int)>
    requires level >= 0
  {
    set i, j | 0 <= i < 9 && 0 <= j < 9 && Eligible(level, i, j) :: (i, j)
  }

  /** The strategic flag is set exactly when the pattern keeps some cell from being cleared. */
  lemma StrategicFlagRestrictsCells(level: int, extra: int)
    requires level >= 1 && LogBonus(level, BaseCellsToRemove(level), extra)
    ensures CalculateDynamicDifficulty(level, extra).strategicRemovals <==> (0, 3) !in EligibleCells(level)
    ensures !CalculateDynamicDifficulty(level, extra).strategicRemovals ==>
      forall i, j :: 0 <= i < 9 && 0 <= j < 9 ==> (i, j) in EligibleCells(level)
  {
    if level > 5 {
      assert PatternIndex(level) != 0;
      assert !Eligible(level, 0, 3);
    } else {
      assert (0, 3) in EligibleCells(level) by { assert Eligible(level, 0, 3); }
    }
  }

  /** The diagonal pattern is never consulted: index 0 means level < 5, where every cell is eligible. */
  lemma DiagonalPatternUnused(level: int, row: int, col: int)
    requires level >= 0 && PatternIndex(level) == 0
    ensures Eligible(level, row, col)
  {
  }

  // Counting eligible cells. Rule 3 stands for "every cell", rules 0..2 for the patterns.

  function Rule(level: int): int
    requires level >= 0
  {
    if level <= 5 then 3 else PatternIndex(level)
  }

  predicate Matches(rule: int, row: int, col: int) {
    rule == 3 || Pattern(rule, row, col)
  }

  /** The cells matching the rule at (i, j) or after it in row-major order. */
  ghost function CellsFrom(rule: int, i: int, j: int): set<(int, int)> {
    set a, b | 0 <= a < 9 && 0 <= b < 9 && (a > i || (a == i && b >= j)) && Matches(rule, a, b) :: (a, b)
  }

  /** How many cells match the rule at (i, j) or after it in row-major order. */
  function CountFrom(rule: int, i: int, j: int): nat
    requires 0 <= i <= 9 && 0 <= j <= 9
    decreases 9 - i, 9 - j
  {
    if i == 9 then 0
    else if j == 9 then CountFrom(rule, i + 1, 0)
    else (if Matches(rule, i, j) then 1 else 0) + CountFrom(rule, i, j + 1)
  }

  lemma {:induction false} CountFromIsSize(rule: int, i: int, j: int)
    requires 0 <= i <= 9 && 0 <= j <= 9
    ensures CountFrom(rule, i, j) == |CellsFrom(rule, i, j)|
    decreases 9 - i, 9 - j
  {
    if i == 9 {
      assert CellsFrom(rule, i, j) == {};
    } else if j == 9 {
      CountFromIsSize(rule, i + 1, 0);
      assert CellsFrom(rule, i, j) == CellsFrom(rule, i + 1, 0);
    } else {
      CountFromIsSize(rule, i, j + 1);
      var rest := CellsFrom(rule, i, j + 1);
      assert (i, j) !in rest;
      if Matches(rule, i, j) {
        assert CellsFrom(rule, i, j) == rest + {(i, j)};
      } else {
        assert CellsFrom(rule, i, j) == rest;
      }
    }
  }

  lemma CountEverywhere()
    ensures CountFrom(3, 0, 0) == 81
  {
    assert CountFrom(3, 8, 0) == 9;
    assert CountFrom(3, 7, 0) == 18;
    assert CountFrom(3, 6, 0) == 27;
    assert CountFrom(3, 5, 0) == 36;
    assert CountFrom(3, 4, 0) == 45;
    assert CountFrom(3, 3, 0) == 54;
    assert CountFrom(3, 2, 0) == 63;
    assert CountFrom(3, 1, 0) == 72;
  }

  lemma CountCheckerboardLowerRows()
    ensures CountFrom(1, 5, 0) == 9
  {
    assert CountFrom(1, 8, 0) == 3;
    assert CountFrom(1, 7, 0) == 5;
    assert CountFrom(1, 6, 0) == 7;
  }

  lemma CountCheckerboard()
    ensures CountFrom(1, 0, 0) == 21
  {
    CountCheckerboardLowerRows();
    assert CountFrom(1, 4, 0) == 12;
    assert CountFrom(1, 3, 0) == 14;
    assert CountFrom(1, 2, 0) == 16;
    assert CountFrom(1, 1, 0) == 18;
  }

  lemma CountNearDiagonalLowerRows()
    ensures CountFrom(2, 5, 0) == 17
  {
    assert CountFrom(2, 8, 0) == 3;
    assert CountFrom(2, 7, 0) == 7;
    assert CountFrom(2, 6, 0) == 12;
  }

  lemma CountNearDiagonal()
    ensures CountFrom(2, 0, 0) == 39
  {
    CountNearDiagonalLowerRows();
    assert CountFrom(2, 4, 0) == 22;
    assert CountFrom(2, 3, 0) == 27;
    assert CountFrom(2, 2, 0) == 32;
    assert CountFrom(2, 1, 0) == 36;
  }

  /** How many cells a level lets the loop clear: all 81, the 21 checkerboard cells, or the 39 near-diagonal ones. */
  function EligibleCount(level: int): int {
    if level <= 5 then 81 else if level < 10 then 21 else 39
  }

  lemma EligibleCountIsSize(level: int)
    requires level >= 0
    ensures |EligibleCells(level)| == EligibleCount(level)
  {
    var rule := Rule(level);
    assert EligibleCells(level) == CellsFrom(rule, 0, 0);
    CountFromIsSize(rule, 0, 0);
    if level <= 5 {
      CountEverywhere();
    } else if level < 10 {
      CountCheckerboard();
    } else {
      CountNearDiagonal();
    }
  }

  /**
   * Above level 5 the level asks to clear more cells than its pattern has:
   * at least 32 against 21 for levels 6..9, at least 40 against 39 from level 10.
   */
  lemma RemovalCountExceedsPattern(level: int, extra: int)
    requires level > 5 && LogBonus(level, BaseCellsToRemove(level), extra)
    ensures |EligibleCells(level)| < CalculateDynamicDifficulty(level, extra).cellsToRemove
  {
    EligibleCountIsSize(level);
  }

  /** Up to level 5 the count is at most 42, well within the 81 cells. */
  lemma RemovalCountFitsUpToLevelFive(level: int, extra: int)
    requires 1 <= level <= 5 && LogBonus(level, BaseCellsToRemove(level), extra)
    ensures CalculateDynamicDifficulty(level, extra).cellsToRemove <= 42 < |EligibleCells(level)|
  {
    EligibleCountIsSize(level);
  }
}
