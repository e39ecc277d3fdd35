/** The rules of 9×9 Sudoku stated on grid values: the shape of a grid, rows,
    columns and boxes, the legality test for placing a digit, and what a solved
    grid is. */
module SudokuRules {

  /** A grid as a sequence of rows; 0 marks an empty cell. */
  type Grid = seq<seq<int>>

  const Size := 9
  const BoxSize := 3

  /** The nine digits a cell may hold. */
  const Digits: set<int> := {1, 2, 3, 4, 5, 6, 7, 8, 9}

  predicate InRange(r: int, c: int)
  {
    0 <= r < Size && 0 <= c < Size
  }

  /** Nine rows of nine cells. */
  predicate IsShape(g: Grid)
  {
    |g| == Size && forall r :: 0 <= r < Size ==> |g[r]| == Size
  }

  /** Every cell is empty or holds a digit. */
  ghost predicate IsPartialGrid(g: Grid)
  {
    IsShape(g) && forall r, c :: InRange(r, c) ==> 0 <= g[r][c] <= 9
  }

  /** No cell is empty. */
  ghost predicate IsFull(g: Grid)
    requires IsShape(g)
  {
    forall r, c :: InRange(r, c) ==> g[r][c] != 0
  }

  /** The grid with cell (r, c) set to v. */
  function WithCell(g: Grid, r: int, c: int, v: int): (h: Grid)
    requires IsShape(g) && InRange(r, c)
    ensures IsShape(h)
    ensures forall r2, c2 :: InRange(r2, c2) ==> h[r2][c2] == if r2 == r && c2 == c then v else g[r2][c2]
  {
    g[r := g[r][c := v]]
  }

  /** Two grids of the right shape with the same cells are the same grid. */
  lemma SameCells(g: Grid, h: Grid)
    requires IsShape(g) && IsShape(h)
    requires forall r, c :: InRange(r, c) ==> g[r][c] == h[r][c]
    ensures g == h
  {
    forall r | 0 <= r < Size
      ensures g[r] == h[r]
    {
      assert forall c :: 0 <= c < Size ==> g[r][c] == h[r][c];
    }
  }

  /** The first row (or column) of the box that holds row (or column) i. */
  function BoxOrigin(i: int): (o: int)
  {
    (i / BoxSize) * BoxSize
  }

  /** n occurs somewhere in row `row`. */
  ghost predicate InRow(g: Grid, row: int, n: int)
    requires IsShape(g) && 0 <= row < Size
  {
    exists c :: 0 <= c < Size && g[row][c] == n
  }

  /** n occurs somewhere in column `col`. */
  ghost predicate InColumn(g: Grid, col: int, n: int)
    requires IsShape(g) && 0 <= col < Size
  {
    exists r :: 0 <= r < Size && g[r][col] == n
  }

  /** Cell (i, j) of the 3×3 box that holds (row, col), counted from the box's origin. */
  function BoxCell(g: Grid, row: int, col: int, i: int, j: int): (v: int)
    requires IsShape(g) && InRange(row, col) && 0 <= i < BoxSize && 0 <= j < BoxSize
  {
    g[BoxOrigin(row) + i][BoxOrigin(col) + j]
  }

  /** n occurs in the 3×3 box whose origin is (BoxOrigin(row), BoxOrigin(col)). */
  ghost predicate InBox(g: Grid, row: int, col: int, n: int)
    requires IsShape(g) && InRange(row, col)
  {
    exists i, j :: 0 <= i < BoxSize && 0 <= j < BoxSize && BoxCell(g, row, col, i, j) == n
  }

  /** The legality test: n is absent from the row, the column and the box of (row, col). */
  ghost predicate CanPlace(g: Grid, row: int, col: int, n: int)
    requires IsShape(g) && InRange(row, col)
  {
    !InRow(g, row, n) && !InColumn(g, col, n) && !InBox(g, row, col, n)
  }

  /** (r1, c1) and (r2, c2) share a row, a column or a box. */
  predicate SameUnit(r1: int, c1: int, r2: int, c2: int)
  {
    r1 == r2 || c1 == c2 || (r1 / BoxSize == r2 / BoxSize && c1 / BoxSize == c2 / BoxSize)
  }

  /** Two different cells of the grid that share a unit. */
  predicate ArePeers(r1: int, c1: int, r2: int, c2: int)
  {
    InRange(r1, c1) && InRange(r2, c2) && (r1 != r2 || c1 != c2) && SameUnit(r1, c1, r2, c2)
  }

  /** Cell (r, c) of s is repeated by none of its peers. */
  ghost predicate NoConflictAt(s: Grid, r: int, c: int)
    requires IsShape(s)
  {
    forall r2, c2 :: ArePeers(r, c, r2, c2) ==> s[r2][c2] != s[r][c]
  }

  /** No filled cell is repeated by one of its peers. */
  ghost predicate IsConflictFree(g: Grid)
    requires IsShape(g)
  {
    forall r1, c1, r2, c2 :: ArePeers(r1, c1, r2, c2) && g[r1][c1] != 0 ==> g[r1][c1] != g[r2][c2]
  }

  /** A complete, valid Sudoku: every cell holds a digit and no unit repeats one. */
  ghost predicate IsSolved(g: Grid)
  {
    IsShape(g) && (forall r, c :: InRange(r, c) ==> 1 <= g[r][c] <= 9) && IsConflictFree(g)
  }

  /** The all-zero grid. */
  function EmptyGrid(): (g: Grid)
    ensures IsPartialGrid(g)
    ensures forall r, c :: InRange(r, c) ==> g[r][c] == 0
  {
    seq(Size, r => seq(Size, c => 0))
  }

  /** A shuffle of 1..9: nine digits, each once. */
  ghost predicate IsDigitPermutation(nums: seq<int>)
  {
    |nums| == Size &&
    (forall i :: 0 <= i < Size ==> 1 <= nums[i] <= 9) &&
    (forall i, j :: 0 <= i < j < Size ==> nums[i] != nums[j])
  }

  /** The legality test fails exactly when some cell of the row, the column or
      the box of (row, col) already holds n. */
  lemma CanPlaceIffNoPeer(g: Grid, row: int, col: int, n: int)
    requires IsShape(g) && InRange(row, col)
    ensures CanPlace(g, row, col, n) <==>
      forall r, c :: InRange(r, c) && SameUnit(row, col, r, c) ==> g[r][c] != n
  {
    var br, bc := BoxOrigin(row), BoxOrigin(col);
    if CanPlace(g, row, col, n) {
      forall r, c | InRange(r, c) && SameUnit(row, col, r, c)
        ensures g[r][c] != n
      {
        if r == row {
          assert !InRow(g, row, n);
        } else if c == col {
          assert !InColumn(g, col, n);
        } else {
          var i, j := r - br, c - bc;
          assert 0 <= i < BoxSize && 0 <= j < BoxSize;
          assert BoxCell(g, row, col, i, j) == g[r][c];
        }
      }
    } else {
      if InRow(g, row, n) {
        var c :| 0 <= c < Size && g[row][c] == n;
        assert SameUnit(row, col, row, c);
      } else if InColumn(g, col, n) {
        var r :| 0 <= r < Size && g[r][col] == n;
        assert SameUnit(row, col, r, col);
      } else {
        var i, j :| 0 <= i < BoxSize && 0 <= j < BoxSize && BoxCell(g, row, col, i, j) == n;
        assert SameUnit(row, col, br + i, bc + j);
      }
    }
  }

  /** Pigeonhole: |d| distinct values drawn from d cover all of d. */
  lemma {:induction false} DistinctCover(s: seq<int>, d: set<int>)
    requires |s| == |d|
    requires forall i :: 0 <= i < |s| ==> s[i] in d
    requires forall i, j :: 0 <= i < j < |s| ==> s[i] != s[j]
    ensures forall x :: x in d ==> x in s
  {
    if |s| > 0 {
      var rest := d - {s[0]};
      forall i | 0 <= i < |s| - 1
        ensures s[1..][i] in rest
      {
        assert s[1..][i] == s[i + 1] != s[0];
      }
      DistinctCover(s[1..], rest);
      forall x | x in d
        ensures x in s
      {
        if x != s[0] {
          assert x in rest;
          var i :| 0 <= i < |s| - 1 && s[1..][i] == x;
          assert s[i + 1] == x;
        }
      }
    }
  }

  /** Nine distinct digits are all nine digits. */
  lemma DigitsCovered(s: seq<int>)
    requires |s| == Size
    requires forall i :: 0 <= i < |s| ==> 1 <= s[i] <= 9
    requires forall i, j :: 0 <= i < j < |s| ==> s[i] != s[j]
    ensures forall d :: 1 <= d <= 9 ==> d in s
  {
    assert |Digits| == Size;
    DistinctCover(s, Digits);
    forall d | 1 <= d <= 9
      ensures d in s
    {
      assert d in Digits;
    }
  }

  /** Every digit of 1..9 occurs in a shuffle of 1..9. */
  lemma PermutationHasEveryDigit(nums: seq<int>, d: int)
    requires IsDigitPermutation(nums)
    requires 1 <= d <= 9
    ensures exists k :: 0 <= k < Size && nums[k] == d
  {
    DigitsCovered(nums);
    assert d in nums;
  }

  /** In a solved grid each row holds every digit. */
  lemma RowHoldsEveryDigit(g: Grid, r: int, n: int)
    requires IsSolved(g) && 0 <= r < Size && 1 <= n <= 9
    ensures InRow(g, r, n)
  {
    var line := g[r];
    forall i, j | 0 <= i < j < Size
      ensures line[i] != line[j]
    {
      assert ArePeers(r, i, r, j);
    }
    DigitsCovered(line);
    assert n in line;
    var c :| 0 <= c < Size && line[c] == n;
  }

  /** In a solved grid each column holds every digit. */
  lemma ColumnHoldsEveryDigit(g: Grid, c: int, n: int)
    requires IsSolved(g) && 0 <= c < Size && 1 <= n <= 9
    ensures InColumn(g, c, n)
  {
    var line := seq(Size, i requires 0 <= i < Size => g[i][c]);
    forall i, j | 0 <= i < j < Size
      ensures line[i] != line[j]
    {
      assert ArePeers(i, c, j, c);
    }
    DigitsCovered(line);
    assert n in line;
    var r :| 0 <= r < Size && line[r] == n;
  }

  /** A row (or column) a steps past the origin of the box of i lies in that box. */
  lemma BoxOffset(i: int, a: int)
    requires 0 <= i < Size && 0 <= a < BoxSize
    ensures 0 <= BoxOrigin(i) + a < Size && (BoxOrigin(i) + a) / BoxSize == i / BoxSize
  {
  }

  /** The box enumerated cell by cell: entry k is cell (k / 3, k % 3) of the box. */
  function BoxLine(g: Grid, r: int, c: int): (line: seq<int>)
    requires IsShape(g) && InRange(r, c)
    ensures |line| == Size
  {
    seq(Size, k requires 0 <= k < Size => BoxCell(g, r, c, k / BoxSize, k % BoxSize))
  }

  /** Two different entries of a box line are different cells of one box. */
  lemma BoxLineEntriesArePeers(r: int, c: int, i: int, j: int)
    requires InRange(r, c) && 0 <= i < j < Size
    ensures ArePeers(BoxOrigin(r) + i / BoxSize, BoxOrigin(c) + i % BoxSize,
                     BoxOrigin(r) + j / BoxSize, BoxOrigin(c) + j % BoxSize)
  {
    var ai, bi, aj, bj := i / BoxSize, i % BoxSize, j / BoxSize, j % BoxSize;
    assert ai != aj || bi != bj;
    BoxOffset(r, ai);
    BoxOffset(r, aj);
    BoxOffset(c, bi);
    BoxOffset(c, bj);
  }

  /** In a solved grid each box holds every digit. */
  lemma BoxHoldsEveryDigit(g: Grid, r: int, c: int, n: int)
    requires IsSolved(g) && InRange(r, c) && 1 <= n <= 9
    ensures InBox(g, r, c, n)
  {
    var box := BoxLine(g, r, c);
    forall i, j | 0 <= i < j < Size
      ensures box[i] != box[j]
    {
      BoxLineEntriesArePeers(r, c, i, j);
    }
    forall i | 0 <= i < Size
      ensures 1 <= box[i] <= 9
    {
      BoxOffset(r, i / BoxSize);
      BoxOffset(c, i % BoxSize);
    }
    DigitsCovered(box);
    assert n in box;
    var k :| 0 <= k < Size && box[k] == n;
    assert BoxCell(g, r, c, k / BoxSize, k % BoxSize) == n;
  }

  /** In a solved grid each row, each column and each box holds every digit of
      1..9, and (being conflict-free) holds it only once. */
  lemma SolvedGridHoldsEveryDigit(g: Grid)
    requires IsSolved(g)
    ensures forall r, n :: 0 <= r < Size && 1 <= n <= 9 ==> InRow(g, r, n)
    ensures forall c, n :: 0 <= c < Size && 1 <= n <= 9 ==> InColumn(g, c, n)
    ensures forall r, c, n :: InRange(r, c) && 1 <= n <= 9 ==> InBox(g, r, c, n)
  {
    forall r, n | 0 <= r < Size && 1 <= n <= 9
      ensures InRow(g, r, n)
    {
      RowHoldsEveryDigit(g, r, n);
    }
    forall c, n | 0 <= c < Size && 1 <= n <= 9
      ensures InColumn(g, c, n)
    {
      ColumnHoldsEveryDigit(g, c, n);
    }
    forall r, c, n | InRange(r, c) && 1 <= n <= 9
      ensures InBox(g, r, c, n)
    {
      BoxHoldsEveryDigit(g, r, c, n);
    }
  }
}
