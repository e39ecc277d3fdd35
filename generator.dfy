/** The generator and the carver of src/generator.rs: a 9×9 grid held in an
    array that the operations update in place, with the shuffles of the random
    number generator passed in as a stream of permutations of 1..9. */
module Generator {
  import opened SudokuRules
  import opened SudokuCompletions

  /** The shuffles drawn from the random number generator, in drawing order:
      rng(k) is the k-th shuffle of 1..9. */
  type Shuffles = nat -> seq<int>

  ghost predicate AllShuffled(rng: Shuffles)
  {
    forall k: nat :: IsDigitPermutation(rng(k))
  }

  /** Carve at most this many cells. */
  const MaxRemoved := 45

  /** The value of the grid held in array g. */
  function Snapshot(g: array2<int>): (s: Grid)
    reads g
    requires g.Length0 == Size && g.Length1 == Size
    ensures IsShape(s)
    ensures forall r, c :: InRange(r, c) ==> s[r][c] == g[r, c]
  {
    seq(Size, r requires 0 <= r < Size reads g => seq(Size, c requires 0 <= c < Size reads g => g[r, c]))
  }

  /** One assignment grid[r][c] = v. */
  method Write(g: array2<int>, r: int, c: int, v: int)
    requires g.Length0 == Size && g.Length1 == Size && InRange(r, c)
    modifies g
    ensures Snapshot(g) == WithCell(old(Snapshot(g)), r, c, v)
  {
    g[r, c] := v;
    SameCells(Snapshot(g), WithCell(old(Snapshot(g)), r, c, v));
  }

  /** The grid with the 3×3 box at (start, start) holding nums row by row. */
  function WithBox(g: Grid, start: int, nums: seq<int>): (h: Grid)
    requires IsShape(g) && 0 <= start <= Size - BoxSize && |nums| == Size
    ensures IsShape(h)
  {
    seq(Size, r requires 0 <= r < Size =>
      seq(Size, c requires 0 <= c < Size =>
        if start <= r < start + BoxSize && start <= c < start + BoxSize
        then nums[(r - start) * BoxSize + (c - start)]
        else g[r][c]))
  }

  /** The grid after the seeding loop has run for i = 0 .. upTo - 1: box
      (i, i) is filled with the shuffle rng(i / 3) whenever i % 3 == 0. */
  ghost function Seeded(rng: Shuffles, upTo: int): (g: Grid)
    requires AllShuffled(rng) && 0 <= upTo <= Size
    ensures IsShape(g)
  {
    if upTo == 0 then EmptyGrid()
    else
      var i := upTo - 1;
      if i % BoxSize == 0 then WithBox(Seeded(rng, i), i, rng(i / BoxSize)) else Seeded(rng, i)
  }

  /** The value the seeding loop has left in cell (r, c) once it has run up
      to upTo: the diagonal box's shuffle when that box has been reached, and
      0 otherwise. */
  ghost function SeedValue(rng: Shuffles, upTo: int, r: int, c: int): (v: int)
    requires AllShuffled(rng) && InRange(r, c)
  {
    if r / BoxSize == c / BoxSize && BoxOrigin(r) < upTo
    then rng(r / BoxSize)[(r % BoxSize) * BoxSize + c % BoxSize]
    else 0
  }

  /** Row (or column) r lies in the box starting at i exactly when i is a box
      origin no more than two before r. */
  lemma BoxRange(i: int, r: int)
    requires 0 <= i < Size && 0 <= r < Size
    ensures (i % BoxSize == 0 && i <= r < i + BoxSize) <==> BoxOrigin(r) == i
    ensures BoxOrigin(r) == i ==> r % BoxSize == r - i && r / BoxSize == i / BoxSize
  {
  }

  /** One round of the seeding loop moves cell (r, c) from its value after
      upTo - 1 rounds to its value after upTo rounds. */
  lemma SeededCellStep(rng: Shuffles, upTo: int, r: int, c: int)
    requires AllShuffled(rng) && 0 < upTo <= Size && InRange(r, c)
    requires Seeded(rng, upTo - 1)[r][c] == SeedValue(rng, upTo - 1, r, c)
    ensures Seeded(rng, upTo)[r][c] == SeedValue(rng, upTo, r, c)
  {
    var i := upTo - 1;
    BoxRange(i, r);
    BoxRange(i, c);
    if i % BoxSize == 0 {
      var prev := Seeded(rng, i);
      var nums := rng(i / BoxSize);
      assert Seeded(rng, upTo) == WithBox(prev, i, nums);
      if BoxOrigin(r) == i && BoxOrigin(c) == i {
        assert WithBox(prev, i, nums)[r][c] == nums[(r - i) * BoxSize + (c - i)];
      } else {
        assert WithBox(prev, i, nums)[r][c] == prev[r][c];
      }
    } else {
      assert Seeded(rng, upTo) == Seeded(rng, i);
    }
  }

  /** After the seeding loop has run up to upTo, a cell holds its diagonal
      box's shuffle when that box has been reached, and 0 otherwise. */
  lemma {:induction false} SeededCells(rng: Shuffles, upTo: int)
    requires AllShuffled(rng) && 0 <= upTo <= Size
    ensures forall r, c :: InRange(r, c) ==> Seeded(rng, upTo)[r][c] == SeedValue(rng, upTo, r, c)
  {
    if upTo > 0 {
      SeededCells(rng, upTo - 1);
      forall r, c | InRange(r, c)
        ensures Seeded(rng, upTo)[r][c] == SeedValue(rng, upTo, r, c)
      {
        SeededCellStep(rng, upTo, r, c);
      }
    }
  }

  /** Two different cells of the same diagonal box hold different entries of
      that box's shuffle. */
  lemma DiagonalPeersDiffer(rng: Shuffles, r1: int, c1: int, r2: int, c2: int)
    requires AllShuffled(rng) && ArePeers(r1, c1, r2, c2)
    requires r1 / BoxSize == c1 / BoxSize && r2 / BoxSize == c2 / BoxSize
    ensures r1 / BoxSize == r2 / BoxSize
    ensures SeedValue(rng, Size, r1, c1) != SeedValue(rng, Size, r2, c2)
  {
    var b := r1 / BoxSize;
    assert BoxOrigin(r1) <= r1 && BoxOrigin(r2) <= r2;
    var k1 := (r1 % BoxSize) * BoxSize + c1 % BoxSize;
    var k2 := (r2 % BoxSize) * BoxSize + c2 % BoxSize;
    assert r1 == BoxSize * b + r1 % BoxSize && c1 == BoxSize * b + c1 % BoxSize;
    assert r2 == BoxSize * b + r2 % BoxSize && c2 == BoxSize * b + c2 % BoxSize;
    assert 0 <= k1 < Size && 0 <= k2 < Size && k1 != k2;
    assert IsDigitPermutation(rng(b));
    if k1 < k2 {
      assert rng(b)[k1] != rng(b)[k2];
    } else {
      assert rng(b)[k2] != rng(b)[k1];
    }
  }

  /** The seeding loop fills exactly the three diagonal boxes, each with its
      own shuffle; they share no row or column, so the seeded grid is a
      conflict-free partial grid. */
  lemma SeededIsConflictFree(rng: Shuffles)
    requires AllShuffled(rng)
    ensures IsPartialGrid(Seeded(rng, Size)) && IsConflictFree(Seeded(rng, Size))
    ensures forall r, c :: InRange(r, c) ==> (Seeded(rng, Size)[r][c] != 0 <==> r / BoxSize == c / BoxSize)
  {
    var g := Seeded(rng, Size);
    SeededCells(rng, Size);
    forall r, c | InRange(r, c)
      ensures 0 <= g[r][c] <= 9 && (g[r][c] != 0 <==> r / BoxSize == c / BoxSize)
    {
      assert BoxOrigin(r) <= r;
      assert IsDigitPermutation(rng(r / BoxSize));
    }
    forall r1, c1, r2, c2 | ArePeers(r1, c1, r2, c2) && g[r1][c1] != 0
      ensures g[r1][c1] != g[r2][c2]
    {
      if g[r2][c2] != 0 {
        DiagonalPeersDiffer(rng, r1, c1, r2, c2);
      }
    }
  }

  /** fill_subgrid: writes nums[i * 3 + j] into cell (start + i, start + j)
      for i, j in 0..3 and leaves every other cell as it was. */
  method FillSubgrid(g: array2<int>, start: int, nums: seq<int>)
    requires g.Length0 == Size && g.Length1 == Size
    requires 0 <= start <= Size - BoxSize && |nums| == Size
    modifies g
    ensures Snapshot(g) == WithBox(old(Snapshot(g)), start, nums)
  {
    ghost var g0 := Snapshot(g);
    for i := 0 to BoxSize
      invariant forall r, c :: InRange(r, c) ==>
        g[r, c] == if start <= r < start + i && start <= c < start + BoxSize
                   then nums[(r - start) * BoxSize + (c - start)] else g0[r][c]
    {
      for j := 0 to BoxSize
        invariant forall r, c :: InRange(r, c) ==>
          g[r, c] == if (start <= r < start + i && start <= c < start + BoxSize) ||
                        (r == start + i && start <= c < start + j)
                     then nums[(r - start) * BoxSize + (c - start)] else g0[r][c]
      {
        g[start + i, start + j] := nums[i * BoxSize + j];
      }
    }
    SameCells(Snapshot(g), WithBox(g0, start, nums));
  }

  /** can_place_number: scans the row, then the column, then the box of
      (row, col) and reports whether num is absent from all three. */
  method CanPlaceNumber(g: array2<int>, row: int, col: int, num: int) returns (ok: bool)
    requires g.Length0 == Size && g.Length1 == Size && InRange(row, col)
    ensures ok == CanPlace(Snapshot(g), row, col, num)
    ensures ok <==> forall r, c :: InRange(r, c) && SameUnit(row, col, r, c) ==> g[r, c] != num
  {
    ghost var s := Snapshot(g);
    CanPlaceIffNoPeer(s, row, col, num);
    for c := 0 to Size
      invariant forall c' :: 0 <= c' < c ==> g[row, c'] != num
    {
      if g[row, c] == num {
        assert s[row][c] == num && InRow(s, row, num);
        return false;
      }
    }
    for r := 0 to Size
      invariant forall r' :: 0 <= r' < r ==> g[r', col] != num
    {
      if g[r, col] == num {
        assert s[r][col] == num && InColumn(s, col, num);
        return false;
      }
    }
    assert !InRow(s, row, num) && !InColumn(s, col, num);
    var rowStart := (row / BoxSize) * BoxSize;
    var colStart := (col / BoxSize) * BoxSize;
    for i := 0 to BoxSize
      invariant forall i', j' :: 0 <= i' < i && 0 <= j' < BoxSize ==> BoxCell(s, row, col, i', j') != num
    {
      for j := 0 to BoxSize
        invariant forall i', j' :: (0 <= i' < i && 0 <= j' < BoxSize) || (i' == i && 0 <= j' < j) ==>
          BoxCell(s, row, col, i', j') != num
      {
        if g[rowStart + i, colStart + j] == num {
          assert BoxCell(s, row, col, i, j) == num && InBox(s, row, col, num);
          return false;
        }
      }
    }
    assert !InBox(s, row, col, num);
    return true;
  }

  /** fill_remaining: finds the first empty cell in row-major order, tries the
      digits of a fresh shuffle that pass the legality test, and recurses;
      a failed attempt is erased before the next digit is tried.
      On success the grid is a completion of the grid on entry; on failure it
      is the grid on entry, and that grid has no completion at all. */
  method FillRemaining(g: array2<int>, rng: Shuffles, drawn: nat) returns (ok: bool, drawnAfter: nat)
    requires g.Length0 == Size && g.Length1 == Size
    requires AllShuffled(rng)
    modifies g
    ensures ok ==> IsCompletion(old(Snapshot(g)), Snapshot(g), 0, 0)
    ensures !ok ==> Snapshot(g) == old(Snapshot(g)) && !HasCompletion(old(Snapshot(g)))
    decreases EmptyCells(Snapshot(g))
  {
    ghost var g0 := Snapshot(g);
    drawnAfter := drawn;
    for row := 0 to Size
      invariant Snapshot(g) == g0
      invariant FilledBefore(g0, row, 0)
    {
      for col := 0 to Size
        invariant Snapshot(g) == g0
        invariant FilledBefore(g0, row, col)
      {
        if g[row, col] == 0 {
          var nums := rng(drawnAfter);
          drawnAfter := drawnAfter + 1;
          for k := 0 to |nums|
            invariant Snapshot(g) == g0
            invariant forall k' :: 0 <= k' < k ==> !CompletesWith(g0, row, col, nums[k'])
          {
            var num := nums[k];
            var legal := CanPlaceNumber(g, row, col, num);
            if legal {
              Write(g, row, col, num);
              EmptyCellsShrink(g0, row, col, num);
              var filled;
              filled, drawnAfter := FillRemaining(g, rng, drawnAfter);
              if filled {
                ExtendCompletion(g0, row, col, num, Snapshot(g));
                return true, drawnAfter;
              }
              Write(g, row, col, 0);
              RestoreCell(g0, row, col, num);
            }
            CandidateNeedsCompletion(g0, row, col, num);
          }
          NoCandidateLeft(g0, row, col, nums);
          return false, drawnAfter;
        }
      }
    }
    FullGridIsItsOwnCompletion(g0);
    return true, drawnAfter;
  }

  /** The empty cells of g. */
  ghost function EmptyCells(g: Grid): (cells: set<(int, int)>)
    requires IsShape(g)
  {
    set r, c | 0 <= r < Size && 0 <= c < Size && g[r][c] == 0 :: (r, c)
  }

  lemma EmptyCellsShrink(g: Grid, row: int, col: int, v: int)
    requires IsShape(g) && InRange(row, col) && g[row][col] == 0 && v != 0
    ensures EmptyCells(WithCell(g, row, col, v)) < EmptyCells(g)
  {
    var h := WithCell(g, row, col, v);
    assert (row, col) in EmptyCells(g) && (row, col) !in EmptyCells(h);
    forall p | p in EmptyCells(h)
      ensures p in EmptyCells(g)
    {
      var r, c :| 0 <= r < Size && 0 <= c < Size && h[r][c] == 0 && p == (r, c);
    }
  }

  /** A completion found after placing a legal num at the first empty cell is
      a completion of the grid before the placement. */
  lemma ExtendCompletion(g: Grid, row: int, col: int, num: int, s: Grid)
    requires IsShape(g) && InRange(row, col) && g[row][col] == 0 && FilledBefore(g, row, col)
    requires 1 <= num <= 9 && CanPlace(g, row, col, num)
    requires IsCompletion(WithCell(g, row, col, num), s, 0, 0)
    ensures IsCompletion(g, s, 0, 0)
  {
    var h := WithCell(g, row, col, num);
    FromStart(h, s, NextRow(row, col), NextCol(row, col));
    SplitEmpty(g, s, row, col);
    FromStart(g, s, row, col);
  }

  /** A completion that holds num at the first empty cell shows that num
      passes the legality test there and that the grid with num placed has a
      completion; so a digit that fails either is held there by no completion. */
  lemma CandidateNeedsCompletion(g: Grid, row: int, col: int, num: int)
    requires IsShape(g) && InRange(row, col) && g[row][col] == 0 && FilledBefore(g, row, col)
    ensures CompletesWith(g, row, col, num) ==>
      CanPlace(g, row, col, num) && HasCompletion(WithCell(g, row, col, num))
  {
    if CompletesWith(g, row, col, num) {
      var s :| IsCompletion(g, s, 0, 0) && s[row][col] == num;
      var h := WithCell(g, row, col, num);
      FromStart(g, s, row, col);
      SplitEmpty(g, s, row, col);
      FromStart(h, s, NextRow(row, col), NextCol(row, col));
      assert IsCompletion(h, s, 0, 0);
    }
  }

  /** When no digit of a shuffle of 1..9 is held at the empty cell by any
      completion, there is no completion. */
  lemma NoCandidateLeft(g: Grid, row: int, col: int, nums: seq<int>)
    requires IsShape(g) && InRange(row, col) && g[row][col] == 0
    requires IsDigitPermutation(nums)
    requires forall k :: 0 <= k < |nums| ==> !CompletesWith(g, row, col, nums[k])
    ensures !HasCompletion(g)
  {
    if HasCompletion(g) {
      var s :| IsCompletion(g, s, 0, 0);
      PermutationHasEveryDigit(nums, s[row][col]);
      var k :| 0 <= k < Size && nums[k] == s[row][col];
      assert CompletesWith(g, row, col, nums[k]);
      assert false;
    }
  }

  /** generate_sudoku: seeds the diagonal boxes, then completes the grid;
      the result is a solved Sudoku, or the all-zero grid when the completion
      fails. */
  method GenerateSudoku(rng: Shuffles) returns (g: array2<int>)
    requires AllShuffled(rng)
    ensures fresh(g)
    ensures g.Length0 == Size && g.Length1 == Size
    ensures IsSolved(Snapshot(g)) || (Snapshot(g) == EmptyGrid() && !HasCompletion(Seeded(rng, Size)))
  {
    g := new int[Size, Size]((r, c) => 0);
    SameCells(Snapshot(g), EmptyGrid());
    for i := 0 to Size
      invariant Snapshot(g) == Seeded(rng, i)
    {
      if i % BoxSize == 0 {
        FillSubgrid(g, i, rng(i / BoxSize));
      }
    }
    ghost var seeded := Snapshot(g);
    SeededIsConflictFree(rng);
    var filled, _ := FillRemaining(g, rng, BoxSize);
    if filled {
      CompletionOfConflictFreeIsSolved(seeded, Snapshot(g));
    } else {
      g := new int[Size, Size]((r, c) => 0);
      SameCells(Snapshot(g), EmptyGrid());
    }
  }

  /** solve_sudoku: counts the completions of the grid from (row, col),
      returning as soon as the running total exceeds 1. The grid is restored
      on return; the count is exact while it is 0 or 1, and otherwise at
      least 2 and at most the number of completions. */
  method SolveSudoku(g: array2<int>, row: int, col: int) returns (count: nat)
    requires g.Length0 == Size && g.Length1 == Size
    requires 0 <= row <= Size && 0 <= col < Size
    modifies g
    ensures Snapshot(g) == old(Snapshot(g))
    ensures count <= |Solutions(old(Snapshot(g)), row, col)|
    ensures count == |Solutions(old(Snapshot(g)), row, col)| || count >= 2
    decreases Size - row, Size - col
  {
    if row == Size {
      return 1;
    }
    var nextRow, nextCol := NextRow(row, col), NextCol(row, col);
    if g[row, col] != 0 {
      count := SolveSudoku(g, nextRow, nextCol);
      return;
    }
    ghost var g0 := Snapshot(g);
    count := 0;
    for num := 1 to Size + 1
      invariant Snapshot(g) == g0
      invariant count <= 1
      invariant count + |Branches(g0, row, col, num)| == |Solutions(g0, row, col)|
    {
      BranchesStep(g0, row, col, num);
      var legal := CanPlaceNumber(g, row, col, num);
      if legal {
        Write(g, row, col, num);
        var sub := SolveSudoku(g, nextRow, nextCol);
        count := count + sub;
        Write(g, row, col, 0);
        RestoreCell(g0, row, col, num);
        if count > 1 {
          return;
        }
      }
    }
  }

  /** has_unique_solution: counts the completions of a copy of the grid and
      holds exactly when there is one; the grid itself is not touched. */
  method HasUniqueSolution(g: array2<int>) returns (unique: bool)
    requires g.Length0 == Size && g.Length1 == Size
    ensures unique <==> HasUniqueCompletion(Snapshot(g))
    ensures unique <==> |Solutions(Snapshot(g), 0, 0)| == 1
  {
    var copy := new int[Size, Size]((r, c) reads g requires 0 <= r < Size && 0 <= c < Size => g[r, c]);
    SameCells(Snapshot(copy), Snapshot(g));
    var solutions := SolveSudoku(copy, 0, 0);
    unique := solutions == 1;
    CountMeaning(Snapshot(g));
  }

  /** The cells that are filled in `before` and empty in `after`. */
  ghost function Cleared(before: Grid, after: Grid): (cells: set<(int, int)>)
    requires IsShape(before) && IsShape(after)
  {
    set r, c | 0 <= r < Size && 0 <= c < Size && before[r][c] != 0 && after[r][c] == 0 :: (r, c)
  }

  /** Writing a cell's old value back over whatever it was set to restores the grid. */
  lemma RestoreCell(g: Grid, i: int, j: int, v: int)
    requires IsShape(g) && InRange(i, j)
    ensures WithCell(WithCell(g, i, j, v), i, j, g[i][j]) == g
  {
    SameCells(WithCell(WithCell(g, i, j, v), i, j, g[i][j]), g);
  }

  /** Clearing one more filled cell of a sub-grid clears exactly one more cell. */
  lemma ClearOne(orig: Grid, cur: Grid, i: int, j: int)
    requires IsShape(orig) && IsShape(cur) && IsSubGrid(cur, orig)
    requires InRange(i, j) && cur[i][j] != 0
    ensures IsSubGrid(WithCell(cur, i, j, 0), orig)
    ensures Cleared(orig, WithCell(cur, i, j, 0)) == Cleared(orig, cur) + {(i, j)}
    ensures |Cleared(orig, WithCell(cur, i, j, 0))| == |Cleared(orig, cur)| + 1
  {
    var next := WithCell(cur, i, j, 0);
    assert (i, j) !in Cleared(orig, cur);
    forall p | p in Cleared(orig, next)
      ensures p in Cleared(orig, cur) + {(i, j)}
    {
      var r, c :| 0 <= r < Size && 0 <= c < Size && orig[r][c] != 0 && next[r][c] == 0 && p == (r, c);
    }
    forall p | p in Cleared(orig, cur) + {(i, j)}
      ensures p in Cleared(orig, next)
    {
      if p != (i, j) {
        var r, c :| 0 <= r < Size && 0 <= c < Size && orig[r][c] != 0 && cur[r][c] == 0 && p == (r, c);
      }
    }
  }

  /** The order in which the carver visits cells: each of the 81 positions once. */
  ghost predicate IsPositionOrder(positions: seq<(int, int)>)
  {
    |positions| == Size * Size &&
    (forall k :: 0 <= k < |positions| ==> InRange(positions[k].0, positions[k].1)) &&
    (forall k, l :: 0 <= k < l < |positions| ==> positions[k] != positions[l])
  }

  /** create_puzzle: visits the positions in the given order and clears each
      filled cell, undoing the clearing whenever the grid no longer has a
      unique solution, until 45 cells are cleared. The result never gains or
      changes a value, clears at most 45 cells, and is either the input
      grid unchanged or a grid with exactly one completion. */
  method CreatePuzzle(g: array2<int>, positions: seq<(int, int)>)
    requires g.Length0 == Size && g.Length1 == Size
    requires IsPositionOrder(positions)
    modifies g
    ensures IsSubGrid(Snapshot(g), old(Snapshot(g)))
    ensures |Cleared(old(Snapshot(g)), Snapshot(g))| <= MaxRemoved
    ensures Snapshot(g) == old(Snapshot(g)) || HasUniqueCompletion(Snapshot(g))
    ensures IsFull(old(Snapshot(g))) ==> HasUniqueCompletion(Snapshot(g))
    ensures IsSolved(old(Snapshot(g))) ==>
      forall t :: IsCompletion(Snapshot(g), t, 0, 0) <==> t == old(Snapshot(g))
  {
    ghost var g0 := Snapshot(g);
    var removedCount := 0;
    assert Cleared(g0, g0) == {};
    for k := 0 to |positions|
      invariant IsSubGrid(Snapshot(g), g0)
      invariant removedCount == |Cleared(g0, Snapshot(g))| < MaxRemoved
      invariant Snapshot(g) == g0 || HasUniqueCompletion(Snapshot(g))
    {
      var (i, j) := positions[k];
      if g[i, j] != 0 {
        ghost var kept := Snapshot(g);
        var backup := g[i, j];
        ClearOne(g0, kept, i, j);
        Write(g, i, j, 0);
        removedCount := removedCount + 1;
        var unique := HasUniqueSolution(g);
        if !unique {
          Write(g, i, j, backup);
          RestoreCell(kept, i, j, 0);
          removedCount := removedCount - 1;
        }
        if removedCount >= MaxRemoved {
          break;
        }
      }
    }
    CarveOutcome(g0, Snapshot(g));
  }

  /** What carving leaves: a carved full grid has a unique completion, and a
      carved solved grid has that solved grid as its only completion. */
  lemma CarveOutcome(g0: Grid, p: Grid)
    requires IsShape(g0) && IsShape(p) && IsSubGrid(p, g0)
    requires p == g0 || HasUniqueCompletion(p)
    ensures IsFull(g0) ==> HasUniqueCompletion(p)
    ensures IsSolved(g0) ==> forall t :: IsCompletion(p, t, 0, 0) <==> t == g0
  {
    if IsFull(g0) && p == g0 {
      FullGridIsItsOwnCompletion(g0);
    }
    if IsSolved(g0) {
      SolvedGridCompletesSubGrid(p, g0);
    }
  }

  /** The generate-then-carve chain of main: the puzzle is the all-zero grid
      (generation fell back) or is carved from a solved Sudoku s, with at most
      45 cells cleared and s as its one and only completion. */
  method GeneratePuzzle(rng: Shuffles, positions: seq<(int, int)>) returns (p: array2<int>)
    requires AllShuffled(rng) && IsPositionOrder(positions)
    ensures p.Length0 == Size && p.Length1 == Size
    ensures Snapshot(p) == EmptyGrid() ||
      exists s :: IsSolved(s) && IsSubGrid(Snapshot(p), s) && |Cleared(s, Snapshot(p))| <= MaxRemoved &&
        forall t :: IsCompletion(Snapshot(p), t, 0, 0) <==> t == s
  {
    p := GenerateSudoku(rng);
    ghost var solved := Snapshot(p);
    CreatePuzzle(p, positions);
    if solved != EmptyGrid() {
      assert IsSolved(solved);
    } else {
      SameCells(Snapshot(p), EmptyGrid());
    }
  }
}
