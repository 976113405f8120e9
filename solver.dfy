/**
 * The randomized backtracking filler `solveSudoku` and the Fisher–Yates
 * `shuffle` that orders the digits it tries. `Math.random()` is a
 * nondeterministic choice of the swap index in 0..i.
 */
module Solver {
  import opened Wrappers
  import opened Grids
  import opened Boards

  /** Fisher–Yates: for i from the last index down to 1 swap a[i] with a[j], some j in 0..i. */
  method Shuffle(a: array<int>)
    modifies a
    ensures multiset(a[..]) == multiset(old(a[..]))
  {
    var i := a.Length - 1;
    while i > 0
      invariant i < a.Length
      invariant multiset(a[..]) == multiset(old(a[..]))
    {
      var j :| 0 <= j <= i;
      a[i], a[j] := a[j], a[i];
      i := i - 1;
    }
  }

  /** The digits in the order a fresh shuffle of [1, ..., 9] gives them: each digit exactly once. */
  method ShuffledDigits() returns (nums: array<int>)
    ensures fresh(nums) && nums.Length == 9
    ensures multiset(nums[..]) == multiset{1, 2, 3, 4, 5, 6, 7, 8, 9}
    ensures forall k :: 0 <= k < 9 ==> 1 <= nums[k] <= 9
    ensures forall d :: 1 <= d <= 9 ==> d in nums[..]
  {
    nums := new int[9](i => i + 1);
    assert nums[..] == [1, 2, 3, 4, 5, 6, 7, 8, 9];
    Shuffle(nums);
    DigitMultiset(nums[..]);
  }

  lemma DigitMultiset(s: seq<int>)
    requires multiset(s) == multiset{1, 2, 3, 4, 5, 6, 7, 8, 9}
    ensures forall k :: 0 <= k < |s| ==> 1 <= s[k] <= 9
    ensures forall d :: 1 <= d <= 9 ==> d in s
  {
    forall k | 0 <= k < |s| ensures 1 <= s[k] <= 9 {
      assert s[k] in multiset(s);
    }
    forall d | 1 <= d <= 9 ensures d in s {
      assert d in multiset(s);
    }
  }

  /**
   * solveSudoku: fill the first empty cell (row-major) with each shuffled
   * digit that `isValid` admits, recurse, and empty the cell again when the
   * recursion fails. On success the board completes its entry value (filled
   * cells kept, empty cells given digits 1..9) and stays consistent if it
   * was; on failure it is exactly as on entry, and no solution extends it.
   */
  method Solve(board: array2<int>) returns (ok: bool)
    requires IsBoard(board)
    modifies board
    ensures ok ==> Fills(Snapshot(board), old(Snapshot(board)))
    ensures ok && old(Consistent(Snapshot(board))) ==> Consistent(Snapshot(board))
    ensures !ok ==> Snapshot(board) == old(Snapshot(board))
    ensures !ok ==> !old(Completable(Snapshot(board)))
    decreases EmptyCells(Snapshot(board)), 1
  {
    ghost var entry := Snapshot(board);
    var found, row, col := FirstEmptyCell(board);
    if !found {
      FirstEmptyIsFirst(entry);
      assert Fills(entry, entry);
      return true;
    }
    var nums := ShuffledDigits();
    var digits := nums[..];
    ok := TryDigits(board, row, col, digits);
    if !ok {
      ViableDigitAmong(entry, row, col, digits);
    }
  }

  /** A completable grid has, among any digits covering 1..9, one that is viable at the empty cell (r, c). */
  lemma ViableDigitAmong(h: Grid, r: int, c: int, digits: seq<int>)
    requires IsGrid(h) && 0 <= r < 9 && 0 <= c < 9 && h[r][c] == 0
    requires forall d :: 1 <= d <= 9 ==> d in digits
    ensures Completable(h) ==> exists m :: 0 <= m < |digits| && Viable(h, r, c, digits[m])
  {
    if Completable(h) {
      var d := CompletableHasViableDigit(h, r, c);
      assert d in digits;
      var m :| 0 <= m < |digits| && digits[m] == d;
    }
  }

  /**
   * The loop of solveSudoku over the shuffled digits for the empty cell
   * (row, col). On failure every digit tried was not viable there and the
   * board is back as it was.
   */
  method TryDigits(board: array2<int>, row: int, col: int, digits: seq<int>) returns (ok: bool)
    requires IsBoard(board) && 0 <= row < 9 && 0 <= col < 9 && board[row, col] == 0
    requires forall m :: 0 <= m < |digits| ==> 1 <= digits[m] <= 9
    modifies board
    ensures ok ==> Fills(Snapshot(board), old(Snapshot(board)))
    ensures ok && old(Consistent(Snapshot(board))) ==> Consistent(Snapshot(board))
    ensures !ok ==> Snapshot(board) == old(Snapshot(board))
    ensures !ok ==> forall m :: 0 <= m < |digits| ==> !Viable(old(Snapshot(board)), row, col, digits[m])
    decreases EmptyCells(Snapshot(board)), 0
  {
    ghost var entry := Snapshot(board);
    for k := 0 to |digits|
      invariant Snapshot(board) == entry
      invariant forall m :: 0 <= m < k ==> !Viable(entry, row, col, digits[m])
    {
      var num := digits[k];
      var valid := IsValid(board, row, col, num);
      if valid {
        Write(board, row, col, num);
        FillShrinksEmptyCells(entry, row, col, num);
        ok := Solve(board);
        if ok {
          FillsAfterPlace(Snapshot(board), entry, row, col, num);
          if Consistent(entry) {
            PlaceKeepsConsistent(entry, row, col, num);
          }
          return;
        }
        Write(board, row, col, 0);
        UndoPlace(entry, row, col, num);
      }
    }
    return false;
  }
}
