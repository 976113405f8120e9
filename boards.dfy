/**
 * The board as the game holds it, a mutable 9×9 array, and the scans the
 * game runs over it: the constraint check `isValid`, the row-major search for
 * the first empty cell, and the deep copy taken of the solved board.
 */
module Boards {
  import opened Wrappers
  import opened Grids

  predicate IsBoard(b: array2<int>) {
    b.Length0 == 9 && b.Length1 == 9
  }

  /** The value of the board in the current state, as `getCurrentBoard` reads it. */
  function Snapshot(b: array2<int>): (g: Grid)
    requires IsBoard(b)
    reads b
    ensures IsGrid(g) && forall i, j :: 0 <= i < 9 && 0 <= j < 9 ==> g[i][j] == b[i, j]
  {
    seq(9, i requires 0 <= i < 9 reads b => seq(9, j requires 0 <= j < 9 reads b => b[i, j]))
  }

  /** A board whose cells are those of g has g as its value. */
  lemma SnapshotIs(b: array2<int>, g: Grid)
    requires IsBoard(b) && IsGrid(g)
    requires forall i, j :: 0 <= i < 9 && 0 <= j < 9 ==> b[i, j] == g[i][j]
    ensures Snapshot(b) == g
  {
    var s := Snapshot(b);
    forall i | 0 <= i < 9 ensures s[i] == g[i] {
      assert forall j :: 0 <= j < 9 ==> s[i][j] == g[i][j];
    }
  }

  /** `board[row][col] = v`: one cell changes, the rest of the board stays. */
  method Write(board: array2<int>, row: int, col: int, v: int)
    requires IsBoard(board) && 0 <= row < 9 && 0 <= col < 9
    modifies board
    ensures Snapshot(board) == SetCell(old(Snapshot(board)), row, col, v)
  {
    ghost var before := Snapshot(board);
    board[row, col] := v;
    SnapshotIs(board, SetCell(before, row, col, v));
  }

  /** Step x of the box scan visits a cell of the box of (row, col). */
  lemma BoxStepInBox(row: int, col: int, x: int)
    requires 0 <= row < 9 && 0 <= col < 9 && 0 <= x < 9
    ensures 0 <= 3 * (row / 3) + x / 3 < 9 && 0 <= 3 * (col / 3) + x % 3 < 9
    ensures Peer(row, col, 3 * (row / 3) + x / 3, 3 * (col / 3) + x % 3)
  {
  }

  /** Every cell of the box of (row, col) is visited by some step of the box scan. */
  lemma BoxStepCovers(row: int, col: int, i: int, j: int)
    requires 0 <= row < 9 && 0 <= col < 9 && 0 <= i < 9 && 0 <= j < 9
    requires i / 3 == row / 3 && j / 3 == col / 3
    ensures var x := 3 * (i % 3) + j % 3;
      0 <= x < 9 && 3 * (row / 3) + x / 3 == i && 3 * (col / 3) + x % 3 == j
  {
  }

  /** Steps 0..x-1 of the isValid scan found no num in the row, the column or the box. */
  ghost predicate ClearUpTo(g: Grid, row: int, col: int, num: int, x: int)
    requires IsGrid(g) && 0 <= row < 9 && 0 <= col < 9 && 0 <= x <= 9
  {
    forall y :: 0 <= y < x ==>
      g[row][y] != num && g[y][col] != num && g[3 * (row / 3) + y / 3][3 * (col / 3) + y % 3] != num
  }

  lemma ClearStep(g: Grid, row: int, col: int, num: int, x: int)
    requires IsGrid(g) && 0 <= row < 9 && 0 <= col < 9 && 0 <= x < 9 && ClearUpTo(g, row, col, num, x)
    requires g[row][x] != num && g[x][col] != num && g[3 * (row / 3) + x / 3][3 * (col / 3) + x % 3] != num
    ensures ClearUpTo(g, row, col, num, x + 1)
  {
  }

  /** A scan that finds num nowhere means num is allowed at (row, col). */
  lemma ClearAllowed(g: Grid, row: int, col: int, num: int)
    requires IsGrid(g) && 0 <= row < 9 && 0 <= col < 9 && ClearUpTo(g, row, col, num, 9)
    ensures Allowed(g, row, col, num)
  {
    forall i, j | 0 <= i < 9 && 0 <= j < 9 && Peer(row, col, i, j)
      ensures g[i][j] != num
    {
      if i == row {
        assert g[row][j] != num;
      } else if j == col {
        assert g[i][col] != num;
      } else {
        BoxStepCovers(row, col, i, j);
        var x := 3 * (i % 3) + j % 3;
        assert g[3 * (row / 3) + x / 3][3 * (col / 3) + x % 3] != num;
      }
    }
  }

  /** A step that finds num means num is not allowed at (row, col). */
  lemma HitNotAllowed(g: Grid, row: int, col: int, num: int, x: int)
    requires IsGrid(g) && 0 <= row < 9 && 0 <= col < 9 && 0 <= x < 9
    requires g[row][x] == num || g[x][col] == num || g[3 * (row / 3) + x / 3][3 * (col / 3) + x % 3] == num
    ensures !Allowed(g, row, col, num)
  {
    BoxStepInBox(row, col, x);
    assert Peer(row, col, row, x) && Peer(row, col, x, col);
  }

  /**
   * isValid: num is nowhere in row `row`, column `col`, or the 3×3 box of
   * (row, col). Checks the three cells of step x together, as the source does.
   */
  method IsValid(board: array2<int>, row: int, col: int, num: int) returns (valid: bool)
    requires IsBoard(board) && 0 <= row < 9 && 0 <= col < 9
    ensures valid == Allowed(Snapshot(board), row, col, num)
  {
    ghost var g := Snapshot(board);
    var boxRow, boxCol := 3 * (row / 3), 3 * (col / 3);
    for x := 0 to 9
      invariant ClearUpTo(g, row, col, num, x)
    {
      BoxStepInBox(row, col, x);
      var i, j := boxRow + x / 3, boxCol + x % 3;
      if board[row, x] == num || board[x, col] == num || board[i, j] == num {
        HitNotAllowed(g, row, col, num, x);
        return false;
      }
      ClearStep(g, row, col, num, x);
    }
    ClearAllowed(g, row, col, num);
    return true;
  }

  /** The row-major scan for an empty cell shared by the solver, the hint and the reveal step. */
  method FirstEmptyCell(board: array2<int>) returns (found: bool, row: int, col: int)
    requires IsBoard(board)
    ensures FirstEmpty(Snapshot(board)) == if found then Some((row, col)) else None
    ensures found ==> 0 <= row < 9 && 0 <= col < 9 && board[row, col] == 0
  {
    ghost var g := Snapshot(board);
    row := 0;
    while row < 9
      invariant 0 <= row <= 9
      invariant FirstEmpty(g) == FirstEmptyFrom(g, 9 * row)
    {
      col := 0;
      while col < 9
        invariant 0 <= col <= 9
        invariant FirstEmpty(g) == FirstEmptyFrom(g, 9 * row + col)
      {
        assert (9 * row + col) / 9 == row && (9 * row + col) % 9 == col;
        if board[row, col] == 0 {
          return true, row, col;
        }
        col := col + 1;
      }
      row := row + 1;
    }
    return false, 0, 0;
  }

  /** The deep copy `JSON.parse(JSON.stringify(board))` taken as the solved game. */
  method CopyBoard(board: array2<int>) returns (copy: array2<int>)
    requires IsBoard(board)
    ensures fresh(copy) && IsBoard(copy) && Snapshot(copy) == Snapshot(board)
  {
    copy := new int[9, 9]((i, j) reads board => if 0 <= i < 9 && 0 <= j < 9 then board[i, j] else 0);
    SnapshotIs(copy, Snapshot(board));
  }
}
