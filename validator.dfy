/**
 * `validateBoard` and the parse `highlightErrors` applies to its messages.
 * The board is compared with the solved game: one message
 * "Incorrect number at (row, col)", 1-indexed, per filled cell that differs
 * from the solution, in row-major order; complete when every cell equals the
 * solution.
 */
module Validator {
  import opened Wrappers
  import opened Grids

  // ---------------------------------------------------------------------
  // Decimal numerals

  predicate IsDigit(ch: char) {
    '0' <= ch <= '9'
  }

  predicate AllDigits(s: string) {
    forall k :: 0 <= k < |s| ==> IsDigit(s[k])
  }

  /** The decimal numeral of n, as a template literal prints it. */
  function Decimal(n: nat): (s: string)
    ensures |s| >= 1 && AllDigits(s)
  {
    if n < 10 then [('0' as int + n) as char]
    else Decimal(n / 10) + [('0' as int + n % 10) as char]
  }

  /** The value of a string of decimal digits, as parseInt reads it. */
  function DigitsValue(s: string): int {
    if |s| == 0 then 0
    else 10 * DigitsValue(s[..|s| - 1]) + (s[|s| - 1] as int - '0' as int)
  }

  lemma {:induction false} DecimalRoundTrip(n: nat)
    ensures DigitsValue(Decimal(n)) == n
  {
    if n >= 10 {
      DecimalRoundTrip(n / 10);
      var s := Decimal(n);
      assert s[..|s| - 1] == Decimal(n / 10);
    }
  }

  // ---------------------------------------------------------------------
  // Messages and their parse

  /** The message validateBoard reports for the 0-indexed cell (r, c). */
  function ErrorMessage(r: nat, c: nat): string {
    "Incorrect number at (" + Decimal(r + 1) + ", " + Decimal(c + 1) + ")"
  }

  /** The end of the run of digits that starts at i. */
  function DigitRunEnd(s: string, i: nat): (j: nat)
    requires i <= |s|
    ensures i <= j <= |s| && (forall m :: i <= m < j ==> IsDigit(s[m])) && (j == |s| || !IsDigit(s[j]))
    decreases |s| - i
  {
    if i < |s| && IsDigit(s[i]) then
      DigitRunEnd(s, i + 1)
    else i
  }

  /**
   * The regular expression \((\d+), (\d+)\) matched at position i, both numbers
   * less one. A digit run is followed by a non-digit, so the greedy run is the
   * only way the match can go on.
   */
  function MatchAt(s: string, i: nat): Option<(int, int)>
    requires i <= |s|
  {
    if i < |s| && s[i] == '(' then
      var j := DigitRunEnd(s, i + 1);
      if j > i + 1 && j + 2 <= |s| && s[j] == ',' && s[j + 1] == ' ' then
        var k := DigitRunEnd(s, j + 2);
        if k > j + 2 && k < |s| && s[k] == ')' then
          Some((DigitsValue(s[i + 1..j]) - 1, DigitsValue(s[j + 2..k]) - 1))
        else None
      else None
    else None
  }

  /** The leftmost match at or after position i. */
  function FirstMatchFrom(s: string, i: nat): Option<(int, int)>
    requires i <= |s|
    decreases |s| - i
  {
    if i == |s| then None
    else if MatchAt(s, i).Some? then MatchAt(s, i)
    else FirstMatchFrom(s, i + 1)
  }

  /** highlightErrors: the 0-indexed cell named in an error message, if it names one. */
  function ParseCell(s: string): Option<(int, int)> {
    FirstMatchFrom(s, 0)
  }

  /** A position with no '(' cannot start a match. */
  lemma {:induction false} SkipToParen(s: string, i: nat, k: nat)
    requires i <= k <= |s| && forall m :: i <= m < k ==> s[m] != '('
    ensures FirstMatchFrom(s, i) == FirstMatchFrom(s, k)
    decreases k - i
  {
    if i < k {
      SkipToParen(s, i + 1, k);
    }
  }

  /** A run of digits ended by a non-digit ends where the numeral ends. */
  lemma {:induction false} DigitRunEndAt(s: string, i: nat, d: string)
    requires AllDigits(d) && i + |d| < |s| && s[i..i + |d|] == d && !IsDigit(s[i + |d|])
    ensures DigitRunEnd(s, i) == i + |d|
    decreases |d|
  {
    if |d| > 0 {
      assert s[i] == d[0];
      assert s[i + 1..i + 1 + |d[1..]|] == d[1..];
      DigitRunEndAt(s, i + 1, d[1..]);
    }
  }

  /** Where the parts of `p + d1 + ", " + d2 + ")"` sit. */
  lemma FramedLayout(p: string, d1: string, d2: string)
    ensures var s, j := p + d1 + ", " + d2 + ")", |p| + |d1|;
      && |s| == j + 2 + |d2| + 1
      && (forall m :: 0 <= m < |p| ==> s[m] == p[m])
      && s[|p|..j] == d1 && s[j] == ',' && s[j + 1] == ' '
      && s[j + 2..j + 2 + |d2|] == d2 && s[j + 2 + |d2|] == ')'
  {
    var s, j := p + d1 + ", " + d2 + ")", |p| + |d1|;
    assert s == p + (d1 + (", " + (d2 + ")")));
    assert s[|p|..] == d1 + (", " + (d2 + ")"));
    assert s[j..] == ", " + (d2 + ")");
    assert s[j + 2..] == d2 + ")";
  }

  /** The match at `open` when the two digit runs end at j and k. */
  lemma MatchAtFramed(s: string, open: nat, j: nat, k: nat)
    requires open + 1 < j && j + 2 < k < |s|
    requires s[open] == '(' && DigitRunEnd(s, open + 1) == j && s[j] == ',' && s[j + 1] == ' '
    requires DigitRunEnd(s, j + 2) == k && s[k] == ')'
    ensures MatchAt(s, open) == Some((DigitsValue(s[open + 1..j]) - 1, DigitsValue(s[j + 2..k]) - 1))
  {
  }

  /** Both digit runs of a framed string end where their numerals end. */
  lemma FramedRuns(s: string, open: nat, d1: string, d2: string)
    requires open + |d1| + |d2| + 3 < |s|
    requires AllDigits(d1) && AllDigits(d2)
    requires s[open + 1..open + 1 + |d1|] == d1 && s[open + 1 + |d1|] == ','
    requires s[open + 3 + |d1|..open + 3 + |d1| + |d2|] == d2 && s[open + 3 + |d1| + |d2|] == ')'
    ensures DigitRunEnd(s, open + 1) == open + 1 + |d1|
    ensures DigitRunEnd(s, open + 3 + |d1|) == open + 3 + |d1| + |d2|
  {
    DigitRunEndAt(s, open + 1, d1);
    DigitRunEndAt(s, open + 3 + |d1|, d2);
  }

  /** The parse of a string with no '(' before a match at `open` is that match. */
  lemma FirstMatchAt(s: string, open: nat)
    requires open < |s| && (forall m :: 0 <= m < open ==> s[m] != '(') && MatchAt(s, open).Some?
    ensures ParseCell(s) == MatchAt(s, open)
  {
    SkipToParen(s, 0, open);
  }

  /**
   * A string whose first '(' is at `open`, followed by a numeral d1, ", ", a
   * numeral d2 and ")", parses to the two values less one.
   */
  lemma ParseFramed(s: string, open: nat, d1: string, d2: string)
    requires open + |d1| + |d2| + 3 < |s|
    requires forall m :: 0 <= m < open ==> s[m] != '('
    requires AllDigits(d1) && AllDigits(d2) && |d1| >= 1 && |d2| >= 1
    requires s[open] == '(' && s[open + 1..open + 1 + |d1|] == d1
    requires s[open + 1 + |d1|] == ',' && s[open + 2 + |d1|] == ' '
    requires s[open + 3 + |d1|..open + 3 + |d1| + |d2|] == d2 && s[open + 3 + |d1| + |d2|] == ')'
    ensures ParseCell(s).Some?
    ensures ParseCell(s).value.0 == DigitsValue(d1) - 1 && ParseCell(s).value.1 == DigitsValue(d2) - 1
  {
    var j, k := open + 1 + |d1|, open + 3 + |d1| + |d2|;
    FramedRuns(s, open, d1, d2);
    MatchAtFramed(s, open, j, k);
    FirstMatchAt(s, open);
    assert s[open + 1..j] == d1 && s[j + 2..k] == d2;
  }

  /** Where the '(' of an error message is. */
  lemma MessagePrefix()
    ensures var prefix := "Incorrect number at (";
      |prefix| == 21 && prefix[20] == '(' && forall m :: 0 <= m < 20 ==> prefix[m] != '('
  {
  }

  /** Parsing the message for (r, c) gives back (r, c): the highlighted cell is the one reported. */
  lemma ParseErrorMessage(r: nat, c: nat)
    ensures ParseCell(ErrorMessage(r, c)) == Some((r, c))
  {
    var d1, d2 := Decimal(r + 1), Decimal(c + 1);
    MessagePrefix();
    FramedLayout("Incorrect number at (", d1, d2);
    ParseFramed(ErrorMessage(r, c), 20, d1, d2);
    DecimalRoundTrip(r + 1);
    DecimalRoundTrip(c + 1);
  }

  /** highlightErrors: the cells named by the messages that match, in the order of the messages. */
  function HighlightedCells(errors: seq<string>): (cells: seq<(int, int)>)
    ensures |cells| <= |errors|
  {
    if |errors| == 0 then []
    else
      HighlightedCells(errors[..|errors| - 1])
        + match ParseCell(errors[|errors| - 1]) { case Some(cell) => [cell] case None => [] }
  }

  // ---------------------------------------------------------------------
  // Sequence steps, stated for any element type so that the proofs below
  // compare lists of messages without looking inside the messages

  lemma SplitLast<T>(s: seq<T>)
    requires |s| > 0
    ensures s[..|s| - 1] + [s[|s| - 1]] == s
  {
  }

  lemma SnocParts<T>(a: seq<T>, x: T)
    ensures |a + [x]| == |a| + 1 && (a + [x])[..|a|] == a && (a + [x])[|a|] == x
  {
  }

  lemma SameTail<T>(a: seq<T>, b: seq<T>, tail: seq<T>, a2: seq<T>, b2: seq<T>)
    requires a == b && a2 == a + tail && b2 == b + tail
    ensures a2 == b2
  {
  }

  // ---------------------------------------------------------------------
  // What validateBoard computes

  /** An entry of `filledCells`. */
  datatype Cell = Cell(row: int, col: int, value: int)

  /** The result object of validateBoard. */
  datatype Validation = Validation(isComplete: bool, errors: seq<string>)

  predicate InRange(cells: seq<Cell>) {
    forall k :: 0 <= k < |cells| ==> 0 <= cells[k].row < 9 && 0 <= cells[k].col < 9
  }

  /** The filled cells whose row-major position is below k, in row-major order. */
  function FilledUpTo(board: Grid, k: int): (cells: seq<Cell>)
    requires IsGrid(board) && 0 <= k <= 81
    ensures InRange(cells)
    ensures forall m :: 0 <= m < |cells| ==> cells[m].value == board[cells[m].row][cells[m].col] && cells[m].value != 0
  {
    if k == 0 then []
    else
      var r, c := (k - 1) / 9, (k - 1) % 9;
      FilledUpTo(board, k - 1) + if board[r][c] != 0 then [Cell(r, c, board[r][c])] else []
  }

  /** The messages the forEach over filled cells pushes. */
  function ErrorsOf(cells: seq<Cell>, solved: Grid): (errors: seq<string>)
    requires IsGrid(solved) && InRange(cells)
    ensures |errors| <= |cells|
  {
    if |cells| == 0 then []
    else
      var last := cells[|cells| - 1];
      ErrorsOf(cells[..|cells| - 1], solved)
        + if last.value != solved[last.row][last.col] then [ErrorMessage(last.row, last.col)] else []
  }

  /** The cells, among the first k in row-major order, that are filled and differ from the solution. */
  function WrongUpTo(board: Grid, solved: Grid, k: int): (w: seq<(int, int)>)
    requires IsGrid(board) && IsGrid(solved) && 0 <= k <= 81
    ensures forall m :: 0 <= m < |w| ==> 0 <= w[m].0 < 9 && 0 <= w[m].1 < 9 && 9 * w[m].0 + w[m].1 < k
  {
    if k == 0 then []
    else
      var r, c := (k - 1) / 9, (k - 1) % 9;
      WrongUpTo(board, solved, k - 1) + if board[r][c] != 0 && board[r][c] != solved[r][c] then [(r, c)] else []
  }

  /** Every filled cell that differs from the solution, in row-major order. */
  function WrongCells(board: Grid, solved: Grid): (w: seq<(int, int)>)
    requires IsGrid(board) && IsGrid(solved)
    ensures forall m :: 0 <= m < |w| ==> 0 <= w[m].0 < 9 && 0 <= w[m].1 < 9
  {
    WrongUpTo(board, solved, 81)
  }

  /** The message for each cell, in order. */
  function Messages(cells: seq<(int, int)>): (msgs: seq<string>)
    requires forall k :: 0 <= k < |cells| ==> cells[k].0 >= 0 && cells[k].1 >= 0
    ensures |msgs| == |cells|
  {
    if |cells| == 0 then []
    else Messages(cells[..|cells| - 1]) + [ErrorMessage(cells[|cells| - 1].0, cells[|cells| - 1].1)]
  }

  /** The k-th message names the k-th cell. */
  lemma {:induction false} MessagesNameCells(cells: seq<(int, int)>)
    requires forall k :: 0 <= k < |cells| ==> cells[k].0 >= 0 && cells[k].1 >= 0
    ensures forall k :: 0 <= k < |cells| ==> Messages(cells)[k] == ErrorMessage(cells[k].0, cells[k].1)
  {
    if |cells| > 0 {
      var init := cells[..|cells| - 1];
      MessagesNameCells(init);
      assert forall k :: 0 <= k < |init| ==> Messages(cells)[k] == Messages(init)[k];
    }
  }

  /** The cells listed among the first k are exactly the filled ones that differ from the solution. */
  lemma {:induction false} WrongUpToMembers(board: Grid, solved: Grid, k: int)
    requires IsGrid(board) && IsGrid(solved) && 0 <= k <= 81
    ensures forall r, c :: (r, c) in WrongUpTo(board, solved, k) <==>
      0 <= r < 9 && 0 <= c < 9 && 9 * r + c < k && board[r][c] != 0 && board[r][c] != solved[r][c]
  {
    if k > 0 {
      WrongUpToMembers(board, solved, k - 1);
      var r, c := (k - 1) / 9, (k - 1) % 9;
      assert 9 * r + c == k - 1;
    }
  }

  /** Cells in strictly increasing row-major order, so each at most once. */
  predicate RowMajorOrdered(cells: seq<(int, int)>) {
    forall m, n :: 0 <= m < n < |cells| ==> 9 * cells[m].0 + cells[m].1 < 9 * cells[n].0 + cells[n].1
  }

  /** The wrong cells are listed in row-major order. */
  lemma {:induction false} WrongUpToOrdered(board: Grid, solved: Grid, k: int)
    requires IsGrid(board) && IsGrid(solved) && 0 <= k <= 81
    ensures RowMajorOrdered(WrongUpTo(board, solved, k))
  {
    if k > 0 {
      WrongUpToOrdered(board, solved, k - 1);
      var w, w' := WrongUpTo(board, solved, k - 1), WrongUpTo(board, solved, k);
      var r, c := (k - 1) / 9, (k - 1) % 9;
      assert 9 * r + c == k - 1;
      forall m, n | 0 <= m < n < |w'| ensures 9 * w'[m].0 + w'[m].1 < 9 * w'[n].0 + w'[n].1 {
        assert w'[m] == w[m];
        if n < |w| {
          assert w'[n] == w[n];
          assert 9 * w[m].0 + w[m].1 < 9 * w[n].0 + w[n].1;
        } else {
          assert w'[n] == (r, c);
          assert 9 * w[m].0 + w[m].1 < k - 1;
        }
      }
    }
  }

  /** The messages for a list of cells with one more cell at the end. */
  lemma MessagesAppend(cells: seq<(int, int)>, r: nat, c: nat)
    requires forall k :: 0 <= k < |cells| ==> cells[k].0 >= 0 && cells[k].1 >= 0
    ensures Messages(cells + [(r, c)]) == Messages(cells) + [ErrorMessage(r, c)]
  {
    SnocParts(cells, (r, c));
  }

  /** The messages pushed for the filled cells below k are the messages for the wrong cells below k. */
  lemma {:induction false} ErrorsAreMessages(board: Grid, solved: Grid, k: int)
    requires IsGrid(board) && IsGrid(solved) && 0 <= k <= 81
    ensures ErrorsOf(FilledUpTo(board, k), solved) == Messages(WrongUpTo(board, solved, k))
  {
    if k > 0 {
      ErrorsAreMessages(board, solved, k - 1);
      var cells, prev := FilledUpTo(board, k), FilledUpTo(board, k - 1);
      var w, w' := WrongUpTo(board, solved, k - 1), WrongUpTo(board, solved, k);
      var r, c := (k - 1) / 9, (k - 1) % 9;
      if board[r][c] != 0 {
        var last := Cell(r, c, board[r][c]);
        SnocParts(prev, last);
        if board[r][c] != solved[r][c] {
          assert ErrorsOf(cells, solved) == ErrorsOf(prev, solved) + [ErrorMessage(r, c)];
          assert w' == w + [(r, c)];
          MessagesAppend(w, r, c);
          SameTail(ErrorsOf(prev, solved), Messages(w), [ErrorMessage(r, c)], ErrorsOf(cells, solved), Messages(w'));
        } else {
          assert ErrorsOf(cells, solved) == ErrorsOf(prev, solved) + [];
          assert w' == w;
          SameTail(ErrorsOf(prev, solved), Messages(w), [], ErrorsOf(cells, solved), Messages(w'));
        }
      } else {
        assert cells == prev && w' == w;
      }
    }
  }

  /**
   * validateBoard: the errors are the messages for the wrong filled cells in
   * row-major order, and the board is complete exactly when it equals the
   * solution.
   */
  method ValidateBoard(board: Grid, solved: Grid) returns (result: Validation)
    requires IsGrid(board) && IsGrid(solved)
    ensures result.errors == Messages(WrongCells(board, solved))
    ensures result.isComplete <==> board == solved
  {
    var filledCells := CollectFilledCells(board);
    var errors := CollectErrors(filledCells, solved);
    ErrorsAreMessages(board, solved, 81);
    var isComplete := EqualsSolution(board, solved);
    return Validation(isComplete, errors);
  }

  /**
   * The scan's step at (row, col), row-major position k, appends that cell
   * when it is filled; `next` is the position that follows.
   */
  lemma FilledStep(board: Grid, row: int, col: int, k: int, next: int, before: seq<Cell>, after: seq<Cell>)
    requires IsGrid(board) && 0 <= row < 9 && 0 <= col < 9 && k == 9 * row + col && next == k + 1
    requires before == FilledUpTo(board, k)
    requires after == if board[row][col] != 0 then before + [Cell(row, col, board[row][col])] else before
    ensures after == FilledUpTo(board, next)
  {
    assert (next - 1) / 9 == row && (next - 1) % 9 == col;
  }

  /** The row-major scan that lists the filled cells. */
  method CollectFilledCells(board: Grid) returns (filledCells: seq<Cell>)
    requires IsGrid(board)
    ensures filledCells == FilledUpTo(board, 81)
  {
    filledCells := [];
    ghost var k := 0;
    for row := 0 to 9
      invariant k == 9 * row
      invariant filledCells == FilledUpTo(board, k)
    {
      for col := 0 to 9
        invariant k == 9 * row + col
        invariant filledCells == FilledUpTo(board, k)
      {
        ghost var before, at := filledCells, k;
        var currentValue := board[row][col];
        if currentValue != 0 {
          filledCells := filledCells + [Cell(row, col, currentValue)];
        }
        k := k + 1;
        FilledStep(board, row, col, at, k, before, filledCells);
      }
    }
  }

  /** The forEach that pushes a message for each filled cell that differs from the solution. */
  method CollectErrors(filledCells: seq<Cell>, solved: Grid) returns (errors: seq<string>)
    requires IsGrid(solved) && InRange(filledCells)
    ensures errors == ErrorsOf(filledCells, solved)
  {
    errors := [];
    for i := 0 to |filledCells|
      invariant errors == ErrorsOf(filledCells[..i], solved)
    {
      var cell := filledCells[i];
      assert filledCells[..i + 1][..i] == filledCells[..i];
      if cell.value != solved[cell.row][cell.col] {
        errors := errors + [ErrorMessage(cell.row, cell.col)];
      }
    }
    assert filledCells[..|filledCells|] == filledCells;
  }

  /** `board.every(row => row.every(cell => cell === solvedGame[..][..]))`. */
  method EqualsSolution(board: Grid, solved: Grid) returns (isComplete: bool)
    requires IsGrid(board) && IsGrid(solved)
    ensures isComplete <==> board == solved
  {
    for row := 0 to 9
      invariant forall i :: 0 <= i < row ==> board[i] == solved[i]
    {
      for col := 0 to 9
        invariant forall j :: 0 <= j < col ==> board[row][j] == solved[row][j]
      {
        if board[row][col] != solved[row][col] {
          return false;
        }
      }
    }
    return true;
  }

  // ---------------------------------------------------------------------
  // What the result means

  /** There is no error exactly when every filled cell agrees with the solution. */
  lemma NoErrorsIffAgrees(board: Grid, solved: Grid)
    requires IsGrid(board) && IsGrid(solved)
    ensures WrongCells(board, solved) == [] <==> Extends(solved, board)
  {
    WrongUpToMembers(board, solved, 81);
    if WrongCells(board, solved) != [] {
      var w := WrongCells(board, solved)[0];
      assert w in WrongCells(board, solved);
    } else {
      forall i, j | 0 <= i < 9 && 0 <= j < 9 && board[i][j] != 0 ensures solved[i][j] == board[i][j] {
        assert (i, j) !in WrongCells(board, solved);
      }
    }
  }

  /** The solved board is complete and has no error. */
  lemma SolvedBoardHasNoErrors(solved: Grid)
    requires IsGrid(solved)
    ensures WrongCells(solved, solved) == []
  {
    NoErrorsIffAgrees(solved, solved);
  }

  /** Among the first k cells of a solved board with one wrong digit, only that digit's cell is wrong. */
  lemma {:induction false} SingleWrongUpTo(solved: Grid, r: int, c: int, v: int, k: int)
    requires IsGrid(solved) && 0 <= r < 9 && 0 <= c < 9 && v != 0 && v != solved[r][c] && 0 <= k <= 81
    ensures WrongUpTo(SetCell(solved, r, c, v), solved, k) == if 9 * r + c < k then [(r, c)] else []
  {
    if k > 0 {
      SingleWrongUpTo(solved, r, c, v, k - 1);
      var i, j := (k - 1) / 9, (k - 1) % 9;
      var board := SetCell(solved, r, c, v);
      var before := WrongUpTo(board, solved, k - 1);
      assert 9 * i + j == k - 1 && 0 <= j < 9;
      if 9 * r + c == k - 1 {
        assert i == r && j == c;
        assert before == [];
        assert WrongUpTo(board, solved, k) == [] + [(r, c)];
      } else {
        assert i != r || j != c;
        assert board[i][j] == solved[i][j];
        assert WrongUpTo(board, solved, k) == before + [];
      }
    }
  }

  /** One wrong digit in an otherwise solved board gives exactly one error, for that cell, and no completion. */
  lemma SingleWrongEntry(solved: Grid, r: int, c: int, v: int)
    requires IsGrid(solved) && 0 <= r < 9 && 0 <= c < 9 && v != 0 && v != solved[r][c]
    ensures WrongCells(SetCell(solved, r, c, v), solved) == [(r, c)]
    ensures SetCell(solved, r, c, v) != solved
  {
    SingleWrongUpTo(solved, r, c, v, 81);
    assert SetCell(solved, r, c, v)[r][c] != solved[r][c];
  }

  /** Each message names its cell: parsing the errors gives back the wrong cells, in order. */
  lemma ErrorsNameWrongCells(board: Grid, solved: Grid)
    requires IsGrid(board) && IsGrid(solved)
    ensures var w := WrongCells(board, solved);
      forall k :: 0 <= k < |w| ==> ParseCell(Messages(w)[k]) == Some(w[k])
  {
    var w := WrongCells(board, solved);
    MessagesNameCells(w);
    forall k | 0 <= k < |w| ensures ParseCell(Messages(w)[k]) == Some(w[k]) {
      ParseErrorMessage(w[k].0, w[k].1);
    }
  }

  /** The cells highlightErrors marks for validateBoard's messages are exactly the wrong cells, in order. */
  lemma {:induction false} HighlightsOfMessages(cells: seq<(int, int)>)
    requires forall k :: 0 <= k < |cells| ==> cells[k].0 >= 0 && cells[k].1 >= 0
    ensures HighlightedCells(Messages(cells)) == cells
  {
    if |cells| > 0 {
      var init := cells[..|cells| - 1];
      var last := cells[|cells| - 1];
      HighlightsOfMessages(init);
      var msgs := Messages(cells);
      SnocParts(Messages(init), ErrorMessage(last.0, last.1));
      assert msgs[..|msgs| - 1] == Messages(init) && msgs[|msgs| - 1] == ErrorMessage(last.0, last.1);
      ParseErrorMessage(last.0, last.1);
      assert HighlightedCells(msgs) == HighlightedCells(Messages(init)) + [last];
      SplitLast(cells);
      SameTail(HighlightedCells(Messages(init)), init, [last], HighlightedCells(msgs), cells);
    }
  }
}
