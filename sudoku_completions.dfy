/** What the backtracking search of the generator and the solution counter
    explores: the completions of a partial grid, enumerated in the counter's
    order (cells row-major, digits ascending), and the facts that tie that
    enumeration to the declarative notion of a completion. */
module SudokuCompletions {
  import opened SudokuRules

  /** Cell (r, c) comes strictly before (row, col) in row-major order. */
  predicate Before(r: int, c: int, row: int, col: int)
  {
    r < row || (r == row && c < col)
  }

  /** The cell after (row, col) in row-major order: row of it. */
  function NextRow(row: int, col: int): (r: int)
  {
    if col == Size - 1 then row + 1 else row
  }

  /** The cell after (row, col) in row-major order: column of it. */
  function NextCol(row: int, col: int): (c: int)
  {
    if col == Size - 1 then 0 else col + 1
  }

  /** s completes g from (row, col) onward: every cell before (row, col) and
      every given (non-zero) cell of g is kept, and every empty cell from
      (row, col) on holds a digit that none of its peers in s repeats.
      Given cells are never checked against each other, just as the search
      never checks them. */
  ghost predicate IsCompletion(g: Grid, s: Grid, row: int, col: int)
    requires IsShape(g)
  {
    IsShape(s) &&
    forall r, c :: InRange(r, c) ==>
      if g[r][c] != 0 || Before(r, c, row, col) then s[r][c] == g[r][c]
      else 1 <= s[r][c] <= 9 && NoConflictAt(s, r, c)
  }

  ghost predicate HasCompletion(g: Grid)
    requires IsShape(g)
  {
    exists s :: IsCompletion(g, s, 0, 0)
  }

  ghost predicate HasUniqueCompletion(g: Grid)
    requires IsShape(g)
  {
    exists s :: IsCompletion(g, s, 0, 0) && forall t :: IsCompletion(g, t, 0, 0) ==> t == s
  }

  ghost predicate HasTwoCompletions(g: Grid)
    requires IsShape(g)
  {
    exists s, t :: IsCompletion(g, s, 0, 0) && IsCompletion(g, t, 0, 0) && s != t
  }

  /** Some completion of g from the start holds n at (row, col). */
  ghost predicate CompletesWith(g: Grid, row: int, col: int, n: int)
    requires IsShape(g) && InRange(row, col)
  {
    exists s :: IsCompletion(g, s, 0, 0) && s[row][col] == n
  }

  /** Every cell before (row, col) is filled. */
  ghost predicate FilledBefore(g: Grid, row: int, col: int)
    requires IsShape(g)
  {
    forall r, c :: InRange(r, c) && Before(r, c, row, col) ==> g[r][c] != 0
  }

  predicate Distinct(xs: seq<Grid>)
  {
    forall i, j :: 0 <= i < j < |xs| ==> xs[i] != xs[j]
  }

  /** The completions of g from (row, col), in the order the solution counter
      meets them. */
  ghost function Solutions(g: Grid, row: int, col: int): (sols: seq<Grid>)
    requires IsShape(g) && 0 <= row <= Size && 0 <= col < Size
    decreases Size - row, Size - col, Size + 1
  {
    if row == Size then [g]
    else if g[row][col] != 0 then Solutions(g, NextRow(row, col), NextCol(row, col))
    else Branches(g, row, col, 1)
  }

  /** The completions of g from the empty cell (row, col) whose digit there is n or more. */
  ghost function Branches(g: Grid, row: int, col: int, n: int): (sols: seq<Grid>)
    requires IsShape(g) && InRange(row, col) && 1 <= n <= Size + 1
    decreases Size - row, Size - col, Size + 1 - n
  {
    if n > Size then []
    else
      (if CanPlace(g, row, col, n) then Solutions(WithCell(g, row, col, n), NextRow(row, col), NextCol(row, col)) else [])
      + Branches(g, row, col, n + 1)
  }

  /** Once the position is past the last cell, the only completion is g itself. */
  lemma PastTheEnd(g: Grid, s: Grid, col: int)
    requires IsShape(g)
    ensures IsCompletion(g, s, Size, col) <==> s == g
  {
    if IsCompletion(g, s, Size, col) {
      SameCells(s, g);
    }
  }

  /** A given cell is skipped: completing from it is completing from the next cell. */
  lemma SkipGiven(g: Grid, s: Grid, row: int, col: int)
    requires IsShape(g) && InRange(row, col) && g[row][col] != 0
    ensures IsCompletion(g, s, row, col) <==> IsCompletion(g, s, NextRow(row, col), NextCol(row, col))
  {
  }

  /** An empty cell splits the completions by the digit they put there: s
      completes g from (row, col) exactly when its digit d at (row, col) passes
      the legality test on g and s completes g with d placed, from the next cell. */
  lemma SplitEmpty(g: Grid, s: Grid, row: int, col: int)
    requires IsShape(g) && InRange(row, col) && g[row][col] == 0
    ensures IsCompletion(g, s, row, col) <==>
      IsShape(s) && 1 <= s[row][col] <= 9 && CanPlace(g, row, col, s[row][col]) &&
      IsCompletion(WithCell(g, row, col, s[row][col]), s, NextRow(row, col), NextCol(row, col))
  {
    var nr, nc := NextRow(row, col), NextCol(row, col);
    if IsCompletion(g, s, row, col) {
      var d := s[row][col];
      var h := WithCell(g, row, col, d);
      CanPlaceIffNoPeer(g, row, col, d);
      forall r, c | InRange(r, c) && SameUnit(row, col, r, c)
        ensures g[r][c] != d
      {
        if r != row || c != col {
          assert ArePeers(row, col, r, c);
        }
      }
      forall r, c | InRange(r, c)
        ensures if h[r][c] != 0 || Before(r, c, nr, nc) then s[r][c] == h[r][c]
                else 1 <= s[r][c] <= 9 && NoConflictAt(s, r, c)
      {
      }
    }
    if IsShape(s) && 1 <= s[row][col] <= 9 && CanPlace(g, row, col, s[row][col]) &&
       IsCompletion(WithCell(g, row, col, s[row][col]), s, nr, nc)
    {
      var d := s[row][col];
      CanPlaceIffNoPeer(g, row, col, d);
      forall r, c | ArePeers(row, col, r, c)
        ensures s[r][c] != d
      {
        assert ArePeers(r, c, row, col);
      }
    }
  }

  /** When every cell before (row, col) is filled, completing from the start is
      completing from (row, col). */
  lemma FromStart(g: Grid, s: Grid, row: int, col: int)
    requires IsShape(g) && FilledBefore(g, row, col)
    ensures IsCompletion(g, s, 0, 0) <==> IsCompletion(g, s, row, col)
  {
  }

  /** Every grid the enumeration yields is a completion. */
  lemma {:induction false} SolutionsSound(g: Grid, row: int, col: int, s: Grid)
    requires IsShape(g) && 0 <= row <= Size && 0 <= col < Size
    requires s in Solutions(g, row, col)
    ensures IsCompletion(g, s, row, col)
    decreases Size - row, Size - col, Size + 1
  {
    if row == Size {
      PastTheEnd(g, s, col);
    } else if g[row][col] != 0 {
      SolutionsSound(g, NextRow(row, col), NextCol(row, col), s);
      SkipGiven(g, s, row, col);
    } else {
      BranchesSound(g, row, col, 1, s);
    }
  }

  /** Every grid a branch yields is a completion whose digit at the branching
      cell is at least n. */
  lemma {:induction false} BranchesSound(g: Grid, row: int, col: int, n: int, s: Grid)
    requires IsShape(g) && InRange(row, col) && g[row][col] == 0 && 1 <= n <= Size + 1
    requires s in Branches(g, row, col, n)
    ensures IsCompletion(g, s, row, col) && n <= s[row][col]
    decreases Size - row, Size - col, Size + 1 - n
  {
    if n <= Size {
      var nr, nc := NextRow(row, col), NextCol(row, col);
      var h := WithCell(g, row, col, n);
      var here := if CanPlace(g, row, col, n) then Solutions(h, nr, nc) else [];
      assert Branches(g, row, col, n) == here + Branches(g, row, col, n + 1);
      if s in here {
        SolutionsSound(h, nr, nc, s);
        PlacedCompletion(g, row, col, n, s);
      } else {
        BranchesSound(g, row, col, n + 1, s);
      }
    }
  }

  /** A completion found after placing a legal digit n at the empty cell
      (row, col) holds n there and completes g from (row, col). */
  lemma PlacedCompletion(g: Grid, row: int, col: int, n: int, s: Grid)
    requires IsShape(g) && InRange(row, col) && g[row][col] == 0 && 1 <= n <= Size
    requires CanPlace(g, row, col, n)
    requires IsCompletion(WithCell(g, row, col, n), s, NextRow(row, col), NextCol(row, col))
    ensures IsCompletion(g, s, row, col) && s[row][col] == n
  {
    var h := WithCell(g, row, col, n);
    assert Before(row, col, NextRow(row, col), NextCol(row, col)) && h[row][col] == n;
    assert s[row][col] == n;
    SplitEmpty(g, s, row, col);
  }

  /** Every completion is yielded by the enumeration. */
  lemma {:induction false} SolutionsComplete(g: Grid, row: int, col: int, s: Grid)
    requires IsShape(g) && 0 <= row <= Size && 0 <= col < Size
    requires IsCompletion(g, s, row, col)
    ensures s in Solutions(g, row, col)
    decreases Size - row, Size - col, Size + 1
  {
    if row == Size {
      PastTheEnd(g, s, col);
    } else if g[row][col] != 0 {
      SkipGiven(g, s, row, col);
      SolutionsComplete(g, NextRow(row, col), NextCol(row, col), s);
    } else {
      BranchesComplete(g, row, col, 1, s);
    }
  }

  /** Every completion whose digit at the branching cell is at least n is
      yielded by the branch for n. */
  lemma {:induction false} BranchesComplete(g: Grid, row: int, col: int, n: int, s: Grid)
    requires IsShape(g) && InRange(row, col) && g[row][col] == 0 && 1 <= n <= Size
    requires IsCompletion(g, s, row, col) && n <= s[row][col]
    ensures s in Branches(g, row, col, n)
    decreases Size - row, Size - col, Size + 1 - n
  {
    var nr, nc := NextRow(row, col), NextCol(row, col);
    SplitEmpty(g, s, row, col);
    if s[row][col] == n {
      SolutionsComplete(WithCell(g, row, col, n), nr, nc, s);
    } else {
      BranchesComplete(g, row, col, n + 1, s);
    }
  }

  lemma DistinctConcat(a: seq<Grid>, b: seq<Grid>)
    requires Distinct(a) && Distinct(b)
    requires forall x, y :: x in a && y in b ==> x != y
    ensures Distinct(a + b)
  {
    forall i, j | 0 <= i < j < |a + b|
      ensures (a + b)[i] != (a + b)[j]
    {
      if j < |a| {
        assert (a + b)[i] == a[i] && (a + b)[j] == a[j];
      } else if i >= |a| {
        assert (a + b)[i] == b[i - |a|] && (a + b)[j] == b[j - |a|];
      } else {
        assert (a + b)[i] in a && (a + b)[j] in b;
      }
    }
  }

  /** The enumeration yields no completion twice. */
  lemma {:induction false} SolutionsDistinct(g: Grid, row: int, col: int)
    requires IsShape(g) && 0 <= row <= Size && 0 <= col < Size
    ensures Distinct(Solutions(g, row, col))
    decreases Size - row, Size - col, Size + 1
  {
    if row == Size {
    } else if g[row][col] != 0 {
      SolutionsDistinct(g, NextRow(row, col), NextCol(row, col));
    } else {
      BranchesDistinct(g, row, col, 1);
    }
  }

  lemma {:induction false} BranchesDistinct(g: Grid, row: int, col: int, n: int)
    requires IsShape(g) && InRange(row, col) && g[row][col] == 0 && 1 <= n <= Size + 1
    ensures Distinct(Branches(g, row, col, n))
    decreases Size - row, Size - col, Size + 1 - n
  {
    if n <= Size {
      var nr, nc := NextRow(row, col), NextCol(row, col);
      var h := WithCell(g, row, col, n);
      var here := if CanPlace(g, row, col, n) then Solutions(h, nr, nc) else [];
      var rest := Branches(g, row, col, n + 1);
      if CanPlace(g, row, col, n) {
        SolutionsDistinct(h, nr, nc);
      }
      BranchesDistinct(g, row, col, n + 1);
      forall x, y | x in here && y in rest
        ensures x != y
      {
        SolutionsSound(h, nr, nc, x);
        BranchesSound(g, row, col, n + 1, y);
        assert x[row][col] == n < y[row][col];
      }
      DistinctConcat(here, rest);
    }
  }

  /** One step of the digit loop: the branch for n, if n is legal, followed by
      the branches for the larger digits. */
  lemma BranchesStep(g: Grid, row: int, col: int, n: int)
    requires IsShape(g) && InRange(row, col) && 1 <= n <= Size
    ensures |Branches(g, row, col, n)| ==
      (if CanPlace(g, row, col, n) then |Solutions(WithCell(g, row, col, n), NextRow(row, col), NextCol(row, col))| else 0)
      + |Branches(g, row, col, n + 1)|
  {
  }

  /** The enumeration from the start holds exactly the completions. */
  lemma SolutionsAreCompletions(g: Grid)
    requires IsShape(g)
    ensures forall s :: s in Solutions(g, 0, 0) <==> IsCompletion(g, s, 0, 0)
  {
    forall s | s in Solutions(g, 0, 0)
      ensures IsCompletion(g, s, 0, 0)
    {
      SolutionsSound(g, 0, 0, s);
    }
    forall s | IsCompletion(g, s, 0, 0)
      ensures s in Solutions(g, 0, 0)
    {
      SolutionsComplete(g, 0, 0, s);
    }
  }

  /** A repeat-free list of exactly the completions of g is empty, a single
      grid, or longer, as g has no, exactly one, or two different completions. */
  lemma CountOfCompletions(g: Grid, all: seq<Grid>)
    requires IsShape(g) && Distinct(all)
    requires forall s :: s in all <==> IsCompletion(g, s, 0, 0)
    ensures |all| == 0 <==> !HasCompletion(g)
    ensures |all| == 1 <==> HasUniqueCompletion(g)
    ensures |all| >= 2 <==> HasTwoCompletions(g)
  {
    if |all| == 0 {
      assert !HasCompletion(g);
    } else if |all| == 1 {
      assert all[0] in all;
      assert forall t :: IsCompletion(g, t, 0, 0) ==> t == all[0];
      assert !HasTwoCompletions(g);
    } else {
      assert all[0] in all && all[1] in all && all[0] != all[1];
      assert !HasUniqueCompletion(g);
    }
  }

  /** What the number of enumerated completions means: none, exactly one, or
      at least two completions exist. */
  lemma CountMeaning(g: Grid)
    requires IsShape(g)
    ensures |Solutions(g, 0, 0)| == 0 <==> !HasCompletion(g)
    ensures |Solutions(g, 0, 0)| == 1 <==> HasUniqueCompletion(g)
    ensures |Solutions(g, 0, 0)| >= 2 <==> HasTwoCompletions(g)
  {
    SolutionsAreCompletions(g);
    SolutionsDistinct(g, 0, 0);
    CountOfCompletions(g, Solutions(g, 0, 0));
  }

  /** A grid without empty cells has exactly one completion: itself. */
  lemma FullGridIsItsOwnCompletion(g: Grid)
    requires IsShape(g) && IsFull(g)
    ensures IsCompletion(g, g, 0, 0)
    ensures forall t :: IsCompletion(g, t, 0, 0) ==> t == g
    ensures HasUniqueCompletion(g)
  {
    forall t | IsCompletion(g, t, 0, 0)
      ensures t == g
    {
      SameCells(t, g);
    }
    assert IsCompletion(g, g, 0, 0) && forall t :: IsCompletion(g, t, 0, 0) ==> t == g;
  }

  /** A completion from the start leaves no cell empty, keeps every given
      cell, and every digit it fills in passes the legality test against the
      completed grid with that one cell emptied again. */
  lemma CompletionIsFull(g: Grid, s: Grid)
    requires IsShape(g) && IsCompletion(g, s, 0, 0)
    ensures IsFull(s)
    ensures forall r, c :: InRange(r, c) && g[r][c] != 0 ==> s[r][c] == g[r][c]
    ensures forall r, c :: InRange(r, c) && g[r][c] == 0 ==>
      1 <= s[r][c] <= 9 && CanPlace(WithCell(s, r, c, 0), r, c, s[r][c])
  {
    forall r, c | InRange(r, c) && g[r][c] == 0
      ensures CanPlace(WithCell(s, r, c, 0), r, c, s[r][c])
    {
      var e := WithCell(s, r, c, 0);
      CanPlaceIffNoPeer(e, r, c, s[r][c]);
      forall r2, c2 | InRange(r2, c2) && SameUnit(r, c, r2, c2)
        ensures e[r2][c2] != s[r][c]
      {
        if r2 != r || c2 != c {
          assert ArePeers(r, c, r2, c2);
        }
      }
    }
  }

  /** Every completion of a conflict-free partial grid is a solved Sudoku. */
  lemma CompletionOfConflictFreeIsSolved(g: Grid, s: Grid)
    requires IsPartialGrid(g) && IsConflictFree(g)
    requires IsCompletion(g, s, 0, 0)
    ensures IsSolved(s)
  {
    forall r1, c1, r2, c2 | ArePeers(r1, c1, r2, c2) && s[r1][c1] != 0
      ensures s[r1][c1] != s[r2][c2]
    {
      if g[r2][c2] == 0 {
        assert ArePeers(r2, c2, r1, c1);
        assert NoConflictAt(s, r2, c2);
      }
    }
  }

  /** Every non-zero cell of p holds the value of the same cell of s. */
  ghost predicate IsSubGrid(p: Grid, s: Grid)
    requires IsShape(p) && IsShape(s)
  {
    forall r, c :: InRange(r, c) ==> p[r][c] == 0 || p[r][c] == s[r][c]
  }

  /** A puzzle every non-zero cell of which agrees with a solved grid s is
      completed by s; when the puzzle has a unique completion, that completion is s. */
  lemma SolvedGridCompletesSubGrid(p: Grid, s: Grid)
    requires IsShape(p) && IsSolved(s)
    requires IsSubGrid(p, s)
    ensures IsCompletion(p, s, 0, 0)
    ensures HasUniqueCompletion(p) ==> forall t :: IsCompletion(p, t, 0, 0) ==> t == s
  {
    forall r, c | InRange(r, c) && p[r][c] == 0
      ensures NoConflictAt(s, r, c)
    {
      forall r2, c2 | ArePeers(r, c, r2, c2)
        ensures s[r2][c2] != s[r][c]
      {
      }
    }
  }
}
