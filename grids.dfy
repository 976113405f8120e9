/**
 * The 9×9 Sudoku grid as a value: nine rows of nine cells, 0 for an empty
 * cell, 1..9 for a digit. Everything the game promises about a grid is
 * stated here, once, on values; the in-place algorithms work on boards and
 * are tied to these definitions through `Boards.Snapshot`.
 */
module Grids {
  import opened Wrappers

  type Grid = seq<seq<int>>

  /** Nine rows of nine cells. */
  predicate IsGrid(g: Grid) {
    |g| == 9 && forall i :: 0 <= i < 9 ==> |g[i]| == 9
  }

  /** The all-empty grid the generator starts from. */
  function EmptyGrid(): (g: Grid)
    ensures IsGrid(g) && forall i, j :: 0 <= i < 9 && 0 <= j < 9 ==> g[i][j] == 0
  {
    seq(9, i => seq(9, j => 0))
  }

  /** The grid with cell (r, c) set to v. */
  function SetCell(g: Grid, r: int, c: int, v: int): (h: Grid)
    requires IsGrid(g) && 0 <= r < 9 && 0 <= c < 9
    ensures IsGrid(h)
  {
    g[r := g[r][c := v]]
  }

  /** (i, j) lies in the row, the column or the 3×3 box of (r, c). */
  predicate Peer(r: int, c: int, i: int, j: int) {
    i == r || j == c || (i / 3 == r / 3 && j / 3 == c / 3)
  }

  /** v may be placed at (r, c): no cell of its row, column or box (the cell itself included) holds v. */
  ghost predicate Allowed(g: Grid, r: int, c: int, v: int)
    requires IsGrid(g)
  {
    forall i, j :: 0 <= i < 9 && 0 <= j < 9 && Peer(r, c, i, j) ==> g[i][j] != v
  }

  /** No filled cell shares its digit with another cell of its row, column or box. */
  ghost predicate Consistent(g: Grid)
    requires IsGrid(g)
  {
    forall i1, j1, i2, j2 ::
      0 <= i1 < 9 && 0 <= j1 < 9 && 0 <= i2 < 9 && 0 <= j2 < 9 &&
      (i1 != i2 || j1 != j2) && Peer(i1, j1, i2, j2) && g[i1][j1] != 0
      ==> g[i1][j1] != g[i2][j2]
  }

  /** No empty cell is left. */
  ghost predicate Full(g: Grid)
    requires IsGrid(g)
  {
    forall i, j :: 0 <= i < 9 && 0 <= j < 9 ==> g[i][j] != 0
  }

  /** A completely and validly filled grid: digits 1..9, no repetition in a row, column or box. */
  ghost predicate IsSolution(g: Grid) {
    && IsGrid(g)
    && Consistent(g)
    && forall i, j :: 0 <= i < 9 && 0 <= j < 9 ==> 1 <= g[i][j] <= 9
  }

  /** g keeps the value of every filled cell of h (h is g with some cells emptied). */
  ghost predicate Extends(g: Grid, h: Grid)
    requires IsGrid(g) && IsGrid(h)
  {
    forall i, j :: 0 <= i < 9 && 0 <= j < 9 && h[i][j] != 0 ==> g[i][j] == h[i][j]
  }

  /** g completes h: it keeps every filled cell of h and puts a digit 1..9 in every empty one. */
  ghost predicate Fills(g: Grid, h: Grid)
    requires IsGrid(g) && IsGrid(h)
  {
    Extends(g, h) && forall i, j :: 0 <= i < 9 && 0 <= j < 9 && h[i][j] == 0 ==> 1 <= g[i][j] <= 9
  }

  /** Some solution keeps every filled cell of h. */
  ghost predicate Completable(h: Grid)
    requires IsGrid(h)
  {
    exists g :: IsSolution(g) && Extends(g, h)
  }

  /** The empty cells of g. */
  ghost function EmptyCells(g: Grid): set<(int, int)>
    requires IsGrid(g)
  {
    set i, j | 0 <= i < 9 && 0 <= j < 9 && g[i][j] == 0 :: (i, j)
  }

  /** The first empty cell at or after row-major position k (k = 9 * row + col). */
  function FirstEmptyFrom(g: Grid, k: int): Option<(int, int)>
    requires IsGrid(g) && 0 <= k <= 81
    decreases 81 - k
  {
    if k == 81 then None
    else if g[k / 9][k % 9] == 0 then Some((k / 9, k % 9))
    else FirstEmptyFrom(g, k + 1)
  }

  /** The first empty cell of g in row-major order, if any. */
  function FirstEmpty(g: Grid): Option<(int, int)>
    requires IsGrid(g)
  {
    FirstEmptyFrom(g, 0)
  }

  /** Every empty cell of p replaced by the cell of s at the same place. */
  function FillFrom(p: Grid, s: Grid): (r: Grid)
    requires IsGrid(p) && IsGrid(s)
    ensures IsGrid(r)
  {
    seq(9, i requires 0 <= i < 9 => seq(9, j requires 0 <= j < 9 => if p[i][j] == 0 then s[i][j] else p[i][j]))
  }

  // ---------------------------------------------------------------------
  // Placing digits

  /** Placing an allowed digit keeps the grid consistent. */
  lemma PlaceKeepsConsistent(g: Grid, r: int, c: int, v: int)
    requires IsGrid(g) && 0 <= r < 9 && 0 <= c < 9
    requires Consistent(g) && Allowed(g, r, c, v)
    ensures Consistent(SetCell(g, r, c, v))
  {
    var h := SetCell(g, r, c, v);
    forall i1, j1, i2, j2 |
      0 <= i1 < 9 && 0 <= j1 < 9 && 0 <= i2 < 9 && 0 <= j2 < 9 &&
      (i1 != i2 || j1 != j2) && Peer(i1, j1, i2, j2) && h[i1][j1] != 0
      ensures h[i1][j1] != h[i2][j2]
    {
      if i1 == r && j1 == c {
        assert Peer(r, c, i2, j2);
      } else if i2 == r && j2 == c {
        assert Peer(r, c, i1, j1);
      }
    }
  }

  /** Emptying the cell just filled gives back the grid it was filled in. */
  lemma UndoPlace(g: Grid, r: int, c: int, v: int)
    requires IsGrid(g) && 0 <= r < 9 && 0 <= c < 9 && g[r][c] == 0
    ensures SetCell(SetCell(g, r, c, v), r, c, 0) == g
  {
    var h := SetCell(g, r, c, v);
    assert h[r][c := 0] == g[r];
    assert h[r := h[r][c := 0]] == g;
  }

  /** Completing the grid with a digit placed in an empty cell completes the grid without it. */
  lemma FillsAfterPlace(f: Grid, g: Grid, r: int, c: int, v: int)
    requires IsGrid(f) && IsGrid(g) && 0 <= r < 9 && 0 <= c < 9 && g[r][c] == 0 && 1 <= v <= 9
    requires Fills(f, SetCell(g, r, c, v))
    ensures Fills(f, g)
  {
    var h := SetCell(g, r, c, v);
    assert h[r][c] == v;
    forall i, j | 0 <= i < 9 && 0 <= j < 9 && g[i][j] != 0 ensures f[i][j] == g[i][j] {
      assert h[i][j] == g[i][j];
    }
    forall i, j | 0 <= i < 9 && 0 <= j < 9 && g[i][j] == 0 ensures 1 <= f[i][j] <= 9 {
      if i != r || j != c {
        assert h[i][j] == 0;
      }
    }
  }

  /** A grid that completes another has no empty cell. */
  lemma FillsIsFull(f: Grid, g: Grid)
    requires IsGrid(f) && IsGrid(g) && Fills(f, g)
    ensures Full(f)
  {
    forall i, j | 0 <= i < 9 && 0 <= j < 9 ensures f[i][j] != 0 {
      if g[i][j] != 0 {
        assert f[i][j] == g[i][j];
      }
    }
  }

  /** The digit a solution puts in an empty cell of a grid it extends is allowed there. */
  lemma SolutionDigitAllowed(g: Grid, h: Grid, r: int, c: int)
    requires IsSolution(g) && IsGrid(h) && Extends(g, h)
    requires 0 <= r < 9 && 0 <= c < 9 && h[r][c] == 0
    ensures Allowed(h, r, c, g[r][c])
  {
    forall i, j | 0 <= i < 9 && 0 <= j < 9 && Peer(r, c, i, j)
      ensures h[i][j] != g[r][c]
    {
      if h[i][j] != 0 && (i != r || j != c) {
        assert Peer(i, j, r, c);
        assert g[i][j] != g[r][c];
      }
    }
  }

  /** A solution extending h also extends h with one empty cell filled as the solution fills it. */
  lemma SolutionExtendsPlace(g: Grid, h: Grid, r: int, c: int)
    requires IsSolution(g) && IsGrid(h) && Extends(g, h) && 0 <= r < 9 && 0 <= c < 9
    ensures Completable(SetCell(h, r, c, g[r][c]))
  {
    assert Extends(g, SetCell(h, r, c, g[r][c]));
  }

  /** d may go at (r, c) and some solution still extends the grid afterwards. */
  ghost predicate Viable(h: Grid, r: int, c: int, d: int)
    requires IsGrid(h) && 0 <= r < 9 && 0 <= c < 9
  {
    Allowed(h, r, c, d) && Completable(SetCell(h, r, c, d))
  }

  /** An empty cell of a completable grid has a viable digit: the one a solution puts there. */
  lemma CompletableHasViableDigit(h: Grid, r: int, c: int) returns (d: int)
    requires IsGrid(h) && 0 <= r < 9 && 0 <= c < 9 && h[r][c] == 0 && Completable(h)
    ensures 1 <= d <= 9 && Viable(h, r, c, d)
  {
    var g :| IsSolution(g) && Extends(g, h);
    SolutionDigitAllowed(g, h, r, c);
    SolutionExtendsPlace(g, h, r, c);
    d := g[r][c];
  }

  /** Filling an empty cell with a digit removes exactly that cell from the empty cells. */
  lemma FillShrinksEmptyCells(g: Grid, r: int, c: int, v: int)
    requires IsGrid(g) && 0 <= r < 9 && 0 <= c < 9 && g[r][c] == 0 && v != 0
    ensures (r, c) in EmptyCells(g)
    ensures EmptyCells(SetCell(g, r, c, v)) == EmptyCells(g) - {(r, c)}
    ensures |EmptyCells(SetCell(g, r, c, v))| == |EmptyCells(g)| - 1
  {
    var h := SetCell(g, r, c, v);
    assert (r, c) in EmptyCells(g);
    forall p | p in EmptyCells(h) ensures p in EmptyCells(g) - {(r, c)} {
      var (i, j) := p;
      assert h[i][j] == 0;
    }
    forall p | p in EmptyCells(g) - {(r, c)} ensures p in EmptyCells(h) {
      var (i, j) := p;
      assert g[i][j] == 0 && h[i][j] == g[i][j];
    }
  }

  /** A full grid has no empty cell. */
  lemma FullHasNoEmptyCells(g: Grid)
    requires IsGrid(g) && Full(g)
    ensures EmptyCells(g) == {}
  {
  }

  // ---------------------------------------------------------------------
  // The first empty cell

  /** Row-major order of cells: (i, j) comes before (r, c). */
  predicate Before(i: int, j: int, r: int, c: int) {
    i < r || (i == r && j < c)
  }

  lemma {:induction false} FirstEmptyFromIsFirst(g: Grid, k: int)
    requires IsGrid(g) && 0 <= k <= 81
    ensures FirstEmptyFrom(g, k) == None <==>
              forall i, j :: 0 <= i < 9 && 0 <= j < 9 && k <= 9 * i + j ==> g[i][j] != 0
    ensures FirstEmptyFrom(g, k).Some? ==>
              var (r, c) := FirstEmptyFrom(g, k).value;
              && 0 <= r < 9 && 0 <= c < 9 && k <= 9 * r + c && g[r][c] == 0
              && forall i, j :: 0 <= i < 9 && 0 <= j < 9 && k <= 9 * i + j && Before(i, j, r, c) ==> g[i][j] != 0
    decreases 81 - k
  {
    if k < 81 {
      FirstEmptyFromIsFirst(g, k + 1);
      var r, c := k / 9, k % 9;
      assert k == 9 * r + c;
    }
  }

  /**
   * The hint and reveal scan: the result is an empty cell every cell before which,
   * in row-major order, is filled; and there is none exactly when the grid is full.
   */
  lemma FirstEmptyIsFirst(g: Grid)
    requires IsGrid(g)
    ensures FirstEmpty(g) == None <==> Full(g)
    ensures FirstEmpty(g).Some? ==>
              var (r, c) := FirstEmpty(g).value;
              && 0 <= r < 9 && 0 <= c < 9 && g[r][c] == 0
              && forall i, j :: 0 <= i < 9 && 0 <= j < 9 && Before(i, j, r, c) ==> g[i][j] != 0
  {
    FirstEmptyFromIsFirst(g, 0);
  }

  // ---------------------------------------------------------------------
  // Filling a puzzle from its solution

  /** Replacing the empty cells of a puzzle by its solution's cells gives back the solution. */
  lemma FillFromSolution(p: Grid, s: Grid)
    requires IsGrid(p) && IsGrid(s) && Extends(s, p)
    ensures FillFrom(p, s) == s
  {
    var f := FillFrom(p, s);
    forall i | 0 <= i < 9 ensures f[i] == s[i] {
      assert forall j :: 0 <= j < 9 ==> f[i][j] == s[i][j];
    }
  }
}
