# Sudoku generator and carver, modelled in Dafny

This project models the constraint-satisfaction engine of a Rust Sudoku
generator (`src/generator.rs`) and its small board-of-candidates type
(`src/global_board.rs`).

The generator builds a solved 9×9 grid in two steps. It seeds the three
diagonal 3×3 boxes with shuffles of 1..9. It then completes the grid by
backtracking: it places a digit, recurses, and erases the digit when the
recursion fails. If the completion fails, it returns the all-zero grid instead. The carver then clears cells of that grid in a shuffled
order. After each clearing it asks a solution counter whether the puzzle
still has exactly one solution, and undoes the clearing when it does not.
Each level of the counter returns as soon as its own running total exceeds 1.

## Layout

- `sudoku_rules.dfy` (module `SudokuRules`) covers the rules on grid values.
  It defines rows, columns and boxes, the legality test `CanPlace`, conflict-free
  and solved grids, and the pigeonhole facts behind "each digit exactly once".
- `sudoku_completions.dfy` (module `SudokuCompletions`) defines what the search
  explores. `IsCompletion` is the declarative notion of a completion of a partial
  grid. `Solutions` enumerates completions in the counter's own order: cells
  row-major, digits ascending. Lemmas prove the enumeration sound, complete and
  free of repeats. So its length is the number of completions, and "0 / 1 / at
  least 2" means none, exactly one, or two different completions.
- `generator.dfy` (module `Generator`) holds the operations of
  `src/generator.rs` as methods over a 9×9 `array2<int>`, proved against
  `Snapshot(g)`, the grid value the array holds. The mutating ones
  (`FillSubgrid`, `FillRemaining`, `SolveSudoku`, `CreatePuzzle`) update the
  array in place, as the Rust code mutates its `Vec<Vec<u8>>`; `CanPlaceNumber`
  and `HasUniqueSolution` only read it; `GenerateSudoku` allocates and returns a
  new one. `GeneratePuzzle` is the generate-then-carve chain of `src/main.rs`.
- `global_board.dfy` (module `GlobalBoards`) models `GlobalBoard` as a class over
  a 10×10 `array2<seq<int>>`. The board iterator is a second class whose fields
  are its position `x`, `y`.

Randomness is an input. `rng: nat -> seq<int>` is the stream of shuffles the
random number generator would produce. `rng(k)` is the k-th shuffle of 1..9,
and every method that draws from it requires only that each `rng(k)` is a
permutation of 1..9. The seeding loop draws `rng(0)`, `rng(1)` and `rng(2)`.
`FillRemaining` draws a fresh shuffle each time it reaches an empty cell, and it
threads the count of shuffles drawn so far. The carver's shuffled visiting order
is a parameter: a sequence holding each of the 81 positions once. Every
property is proved for every such input.

A completion, as the search defines it, keeps every given cell and fills every
empty cell with a digit that none of the cell's peers repeats. Given cells are
never checked against each other, because neither `fill_remaining` nor
`solve_sudoku` checks them. For a conflict-free start, which is what the
generator builds, a completion is a solved Sudoku (`CompletionOfConflictFreeIsSolved`).

## Model

| member | source | states |
|---|---|---|
| `SudokuRules.CanPlaceIffNoPeer` | src/generator.rs:50-73 | The legality test fails exactly when some cell in the same row, column or box as (row, col) already holds n. The box is the one whose origin is `((row/3)*3, (col/3)*3)`. |
| `Generator.CanPlaceNumber` | src/generator.rs:50-73 | The three early-return scans return true iff `CanPlace` holds on the grid, i.e. iff no cell sharing a unit with (row, col) holds num; the grid is only read. |
| `SudokuRules.PermutationHasEveryDigit` | src/generator.rs:80-84 | A shuffle of 1..9 offers every digit, so the candidate loop tries all nine. |
| `SudokuRules.SolvedGridHoldsEveryDigit` | src/generator.rs:14-31 | In a solved grid every row, every column and every box holds each digit 1..9; conflict-freedom makes it exactly once. |
| `Generator.FillSubgrid` | src/generator.rs:34-47 | Cell (start+i, start+j) becomes `nums[i*3+j]` for i, j in 0..3; every other cell is unchanged. |
| `Generator.SeededCells` | src/generator.rs:17-22 | After the seeding loop a cell holds `rng(b)[(r%3)*3 + c%3]` when it lies in diagonal box b (offsets 0, 3, 6) and 0 otherwise. |
| `Generator.SeededCellStep` | src/generator.rs:18-21 | One round of the seeding loop moves each cell from its closed-form value after i rounds to its value after i + 1: round i writes box (i, i) exactly when i is a multiple of 3. |
| `Generator.SeededIsConflictFree` | src/generator.rs:17-22 | The seeded grid has digits exactly in the three diagonal boxes and no unit repeats a digit. |
| `Generator.DiagonalPeersDiffer` | src/generator.rs:36-46 | Two different cells of one diagonal box hold different entries of that box's shuffle, so a seeded box repeats no digit. |
| `Generator.FillRemaining` | src/generator.rs:76-98 | On true the grid is a completion of the entry grid: no zero, givens kept, every placed digit unrepeated by its peers. On false the grid is exactly the entry grid, and that grid has no completion. |
| `Generator.EmptyCellsShrink` | src/generator.rs:85-87 | Placing a digit in an empty cell strictly shrinks the set of empty cells, which is the measure the recursion of `fill_remaining` descends on. |
| `Generator.CandidateNeedsCompletion` | src/generator.rs:84-91 | A completion holding num at the first empty cell implies num passes the legality test there and the grid with num placed has a completion. |
| `Generator.ExtendCompletion` | src/generator.rs:85-89 | A completion found after a legal placement at the first empty cell completes the grid as it was before the placement. |
| `Generator.NoCandidateLeft` | src/generator.rs:84-93 | When no digit of the shuffle leads to a completion, the grid has no completion, so returning false is exact. |
| `SudokuCompletions.CompletionIsFull` | src/generator.rs:84-97 | A completion has no empty cell and keeps every given cell. Each digit it filled passes the legality test against the finished grid with that cell emptied. |
| `SudokuCompletions.CompletionOfConflictFreeIsSolved` | src/generator.rs:76-98 | A completion of a conflict-free partial grid is a complete valid Sudoku. |
| `Generator.GenerateSudoku` | src/generator.rs:14-31 | For every stream of shuffles the result is a newly allocated 9×9 grid that is a solved Sudoku, or the all-zero grid when the seeded grid has no completion. |
| `SudokuCompletions.SplitEmpty` | src/generator.rs:152-167 | At an empty cell, s completes the grid iff its digit d there passes the legality test and s completes the grid with d placed, from the next cell. |
| `SudokuCompletions.BranchesStep` | src/generator.rs:157-160 | One round of the digit loop adds the completions through digit num, when num is legal, to those through the larger digits. |
| `SudokuCompletions.PlacedCompletion` | src/generator.rs:158-160 | A completion found after placing a legal digit n at an empty cell holds n there and completes the grid from that cell, so each counted sub-solution is a solution of the grid. |
| `SudokuCompletions.SolutionsSound` | src/generator.rs:141-170 | Every grid the counter's enumeration yields is a completion. |
| `SudokuCompletions.SolutionsComplete` | src/generator.rs:141-170 | Every completion is yielded by the counter's enumeration. |
| `SudokuCompletions.SolutionsAreCompletions` | src/generator.rs:141-170 | From the start, a grid is enumerated by the counter exactly when it is a completion. |
| `SudokuCompletions.SolutionsDistinct` | src/generator.rs:156-169 | The enumeration never yields a completion twice: branches for different digits differ in that cell. |
| `SudokuCompletions.CountMeaning` | src/generator.rs:141-170 | The number of enumerated completions is 0 iff no completion exists. It is 1 iff exactly one exists, and at least 2 iff two different ones exist. |
| `SudokuCompletions.CountOfCompletions` | src/generator.rs:134-138 | Any repeat-free list of exactly the completions has length 0, 1 or at least 2 precisely when there is no, exactly one, or two different completions; so `solutions == 1` means uniqueness. |
| `SudokuCompletions.FullGridIsItsOwnCompletion` | src/generator.rs:142-154 | A grid without empty cells has exactly one completion, itself (the counter walks to `row == 9` and returns 1). |
| `Generator.SolveSudoku` | src/generator.rs:141-170 | The grid is restored on return, since every placement is undone. The count never exceeds the number of completions from (row, col). It equals that number unless it stopped early at 2 or more. |
| `Generator.RestoreCell` | src/generator.rs:159-161 | Writing a cell's previous value back after any placement yields the grid as it was, which is what each backtracking step (also src/generator.rs:86-90 and 113-120) relies on. |
| `Generator.HasUniqueSolution` | src/generator.rs:134-138 | Counts on a fresh copy and holds exactly when the grid has a unique completion; the argument grid is not written. |
| `Generator.ClearOne` | src/generator.rs:112-115 | Clearing a filled cell of a sub-grid keeps it a sub-grid and adds exactly that cell to the cleared set, so `removed_count` tracks the cleared cells. |
| `Generator.CreatePuzzle` | src/generator.rs:101-131 | The result never gains or changes a value, clears at most 45 cells, and is either the input or a grid with a unique completion. From a full input it always has a unique completion; from a solved input that completion is the input. |
| `Generator.CarveOutcome` | src/generator.rs:101-131 | A grid carved from a full grid that is unchanged or uniquely completable is uniquely completable; carved from a solved grid, the solved grid is its only completion. |
| `Generator.GeneratePuzzle` | src/main.rs:10-11 | The puzzle that `create_puzzle(generate_sudoku())` yields is the all-zero grid, or is carved from a solved Sudoku s by clearing at most 45 cells and has s as its one and only completion. |
| `SudokuCompletions.SolvedGridCompletesSubGrid` | src/generator.rs:101-131 | A solved grid completes every puzzle carved from it; if that puzzle has a unique completion, it is the solved grid. |
| `GlobalBoards.GlobalBoard.constructor` | src/global_board.rs:11-30 | Cell (x, y) is `[input[x][y]]` when the input has row x with an entry y, and `[1..9]` otherwise; the board is 10×10. |
| `GlobalBoards.InitialCellShape` | src/global_board.rs:17-25 | Every cell of a fresh board is non-empty: a single value or all nine digits. |
| `GlobalBoards.GlobalBoard.Size` | src/global_board.rs:33-35 | A board's size is 10, the side of its cell array. |
| `GlobalBoards.GlobalBoard.Cell` | src/global_board.rs:48-54 | The `Index` read `board[(x, y)]` of an in-range cell: the list stored at (x, y). What it returns is pinned by `SetCell`'s read-after-write and by `Entries`. |
| `GlobalBoards.GlobalBoard.SetCell` | src/global_board.rs:48-61 | After a write through `IndexMut` the read `Cell(x, y)` (the `Index` impl, src/global_board.rs:51-53) returns the new cell and every other cell reads as before. |
| `GlobalBoards.GlobalBoard.Iter` | src/global_board.rs:38-44 | A fresh iterator over this board, standing at (0, 0). |
| `GlobalBoards.GlobalBoardIterator.Next` | src/global_board.rs:73-89 | Off the board: None, position unchanged, and so forever after. On the board: yields `(x, y, data[x][y])` and moves one step on in row-major order. |
| `GlobalBoards.GlobalBoard.Entries` | src/global_board.rs:70-90 | Draining a fresh iterator yields exactly 100 items. Item `x*10 + y` is `(x, y, Cell(x, y))`: row-major order starting at (0, 0). |

## Left out

- The random number generator (`rand::thread_rng`, `shuffle`): each shuffle is an input permutation, as described above.
- `print_grid` and the `fmt::Display` impl of `GlobalBoard`: text output only.
- The printing step of `src/main.rs` (and its commented-out board code); the generate-then-carve chain is `Generator.GeneratePuzzle`.
- Running time of the exponential search: termination is proved (empty cells for `fill_remaining`, cell index for `solve_sudoku`), complexity is not.
- Integer widths: in the source, cells are `u8`, the solution count is `usize`, and `removed_count` is an inferred `i32`. The model uses `int`, because the generator only ever stores 0..9 and the counters stay tiny. The board's cells are unbounded `int` lists.
- Indexing out of range panics in the source; the model makes the index bounds preconditions (`start <= 6` for `fill_subgrid`, coordinates below 9 or 10).
- Generator.GenerateSudoku: it proves that the all-zero fallback happens only when the seeded grid has no completion, but not that this never happens. That would need a completion to exist for every choice of the three diagonal shuffles.
- Generator.CreatePuzzle: the carve quota is the source's fixed constant 45 (`MaxRemoved`), not a parameter.
- `solve_sudoku` (src/generator.rs:141-170) mutates the grid it is given and undoes each placement before returning; only `has_unique_solution` (src/generator.rs:135) clones. `Generator.SolveSudoku` therefore modifies its array and promises it back unchanged.
- The doc comment of `GlobalBoard::new` (src/global_board.rs:10) speaks of empty cells, but the code (src/global_board.rs:17-25) fills every missing cell with 1..9; the model follows the code.
