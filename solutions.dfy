/**
 * What a solved grid looks like unit by unit (every row, column and 3×3 box
 * holds each digit 1..9 exactly once), and a fixed solved grid that shows the
 * empty grid can always be completed.
 */
module Solutions {
  import opened Grids

  /** Row k of g. */
  function Row(g: Grid, k: int): seq<int>
    requires IsGrid(g) && 0 <= k < 9
  {
    g[k]
  }

  /** Column k of g, top to bottom. */
  function Col(g: Grid, k: int): seq<int>
    requires IsGrid(g) && 0 <= k < 9
  {
    seq(9, i requires 0 <= i < 9 => g[i][k])
  }

  /** Box k of g (boxes numbered row-major), its cells row-major. */
  function Box(g: Grid, k: int): seq<int>
    requires IsGrid(g) && 0 <= k < 9
  {
    seq(9, x requires 0 <= x < 9 => g[3 * (k / 3) + x / 3][3 * (k % 3) + x % 3])
  }

  /** s holds nine digits 1..9, no two equal. */
  ghost predicate IsDigitPermutation(s: seq<int>) {
    && |s| == 9
    && (forall x :: 0 <= x < 9 ==> 1 <= s[x] <= 9)
    && (forall x, y :: 0 <= x < y < 9 ==> s[x] != s[y])
  }

  /** A sequence without repetitions has as many distinct elements as it is long. */
  lemma {:induction false} DistinctElements(s: seq<int>)
    requires forall x, y :: 0 <= x < y < |s| ==> s[x] != s[y]
    ensures |set v | v in s| == |s|
  {
    if |s| > 0 {
      var t := s[..|s| - 1];
      DistinctElements(t);
      assert (set v | v in s) == (set v | v in t) + {s[|s| - 1]};
      assert s[|s| - 1] !in (set v | v in t);
    }
  }

  /** Nine distinct digits 1..9 are all of them: every digit occurs, and (being distinct) exactly once. */
  lemma DigitPermutationHasEveryDigit(s: seq<int>)
    requires IsDigitPermutation(s)
    ensures forall d :: 1 <= d <= 9 ==> d in s
  {
    var present := set v | v in s;
    var digits := {1, 2, 3, 4, 5, 6, 7, 8, 9};
    DistinctElements(s);
    assert |present| == 9;
    assert |digits| == 9;
    SubsetOfSameSize(present, digits);
    forall d | 1 <= d <= 9 ensures d in s {
      assert d in digits;
    }
  }

  /** A subset as large as a finite set is the whole set. */
  lemma SubsetOfSameSize(a: set<int>, b: set<int>)
    requires a <= b && |a| == |b|
    ensures a == b
  {
    assert |b - a| == |b| - |a|;
  }

  /** The cell at position x of box k lies in box k, and different positions are different cells. */
  lemma BoxCells(k: int, x: int, y: int)
    requires 0 <= k < 9 && 0 <= x < 9 && 0 <= y < 9
    ensures 0 <= 3 * (k / 3) + x / 3 < 9 && 0 <= 3 * (k % 3) + x % 3 < 9
    ensures (3 * (k / 3) + x / 3) / 3 == k / 3 && (3 * (k % 3) + x % 3) / 3 == k % 3
    ensures x != y ==> (x / 3 != y / 3 || x % 3 != y % 3)
  {
  }

  /** In a solution every row, column and box is a permutation of 1..9. */
  lemma SolutionUnitsArePermutations(g: Grid, k: int)
    requires IsSolution(g) && 0 <= k < 9
    ensures IsDigitPermutation(Row(g, k))
    ensures IsDigitPermutation(Col(g, k))
    ensures IsDigitPermutation(Box(g, k))
    ensures forall d :: 1 <= d <= 9 ==> d in Row(g, k) && d in Col(g, k) && d in Box(g, k)
  {
    forall x, y | 0 <= x < y < 9 ensures Row(g, k)[x] != Row(g, k)[y] {
      assert Peer(k, x, k, y);
    }
    forall x, y | 0 <= x < y < 9 ensures Col(g, k)[x] != Col(g, k)[y] {
      assert Peer(x, k, y, k);
    }
    forall x, y | 0 <= x < y < 9 ensures Box(g, k)[x] != Box(g, k)[y] {
      BoxCells(k, x, y);
      assert Peer(3 * (k / 3) + x / 3, 3 * (k % 3) + x % 3, 3 * (k / 3) + y / 3, 3 * (k % 3) + y % 3);
    }
    DigitPermutationHasEveryDigit(Row(g, k));
    DigitPermutationHasEveryDigit(Col(g, k));
    DigitPermutationHasEveryDigit(Box(g, k));
  }

  // ---------------------------------------------------------------------
  // A fixed solution

  /** Cell (i, j) of a fixed solved grid: rows are shifts of 1..9 by 0, 3, 6, 1, 4, 7, 2, 5, 8. */
  function CanonicalDigit(i: int, j: int): int {
    (3 * (i % 3) + i / 3 + j) % 9 + 1
  }

  function Canonical(): (g: Grid)
    ensures IsGrid(g)
  {
    seq(9, i requires 0 <= i < 9 => seq(9, j requires 0 <= j < 9 => CanonicalDigit(i, j)))
  }

  /** Two numbers closer than 9 and different leave different remainders modulo 9. */
  lemma ModNineDistinct(a: int, b: int)
    requires a != b && -9 < a - b < 9
    ensures a % 9 != b % 9
  {
  }

  lemma CanonicalPeersDiffer(i1: int, j1: int, i2: int, j2: int)
    requires 0 <= i1 < 9 && 0 <= j1 < 9 && 0 <= i2 < 9 && 0 <= j2 < 9
    requires (i1 != i2 || j1 != j2) && Peer(i1, j1, i2, j2)
    ensures CanonicalDigit(i1, j1) != CanonicalDigit(i2, j2)
  {
    var a := 3 * (i1 % 3) + i1 / 3 + j1;
    var b := 3 * (i2 % 3) + i2 / 3 + j2;
    if i1 == i2 {
      ModNineDistinct(a, b);
    } else if j1 == j2 {
      assert i1 / 3 != i2 / 3 || i1 % 3 != i2 % 3;
      ModNineDistinct(a, b);
    } else {
      assert i1 / 3 == i2 / 3 && j1 / 3 == j2 / 3;
      assert a - b == 3 * (i1 % 3 - i2 % 3) + (j1 % 3 - j2 % 3);
      ModNineDistinct(a, b);
    }
  }

  lemma CanonicalIsSolution()
    ensures IsSolution(Canonical())
  {
    var g := Canonical();
    forall i1, j1, i2, j2 |
      0 <= i1 < 9 && 0 <= j1 < 9 && 0 <= i2 < 9 && 0 <= j2 < 9 &&
      (i1 != i2 || j1 != j2) && Peer(i1, j1, i2, j2) && g[i1][j1] != 0
      ensures g[i1][j1] != g[i2][j2]
    {
      CanonicalPeersDiffer(i1, j1, i2, j2);
    }
  }

  /** The generator's starting point, the empty grid, has a solution. */
  lemma EmptyGridCompletable()
    ensures Completable(EmptyGrid())
  {
    CanonicalIsSolution();
    assert Extends(Canonical(), EmptyGrid());
  }
}
