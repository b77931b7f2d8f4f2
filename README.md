# Gaussian elimination without pivoting, in place

This project models the core of a small Rust program that solves `A·X = B`
by Gaussian elimination without pivoting. The system is rewritten in place:
forward elimination runs round by round, and back substitution then fills X.
Four kernels are covered:

- `gauss_solver`, on `Vec<Vec<f64>>`;
- `gauss_solver_Array2D`, on the flat row-major `Array2D` type;
- the `LinearSystem::solve_with_gauss` method;
- the pooled, chunked solver `gauss_solver_with_thread_pool_chunks`. Its
  `chunks_mut` jobs, each running `rows_solver`, are executed one after
  another.

The model also covers the `Array2D` container itself: its offset
arithmetic, its checked and unchecked accessors, its row and cell indexing,
and both of its row iterators.

Modules:

- `Elimination` is the value-level specification shared by all kernels:
  - `EliminateRows`, `Round`, `Forward` and `Eliminated` describe what a
    forward round and the forward phase do to the coefficient rows and the
    constants;
  - `Substituted` describes what back substitution computes.

  Matrix entries have an abstract type `F` with uninterpreted `-`, `*` and
  `/` (`Arith`). Every result therefore holds for f64, NaNs and infinities
  included. `Flipped` swaps the factors of every product: `row_solver` and
  `rows_solver` compute `multiplier * base`, where the other kernels compute
  `base * multiplier`. `Commutes` is the one algebraic fact assumed, and
  only where those two orders are compared.
- `Array2d` holds:
  - the `Array2D` class, whose `vec` field is updated in place; `rows` and
    `columns` are fixed at construction;
  - the offset lemmas;
  - the two iterator classes.

  Three kinds of panic are modelled as error values (`Outcome`, `Result`):
  a failed `check_values` in `insert` and `get`, the out-of-range offset that
  `get` reads after its check passes, and the out-of-range row slice of the
  iterators. Every other indexing panic is modelled as a `requires`.
- `Chunking` models the chunk size, the `chunks_mut` partition (as absolute
  row spans), and the zip of the A pieces with the B pieces.
- `Solvers` holds the free functions of `src/main.rs`. `Vec<Vec<f64>>`
  becomes `array<seq<F>>`, and `&mut Vec<f64>` becomes `array<F>`. The
  exclusive borrows become the distinctness requirement `Separate`.
- `Linearsystem` holds the `LinearSystem` class.

Each method's loops are proved against the specification functions. Three
further groups of lemmas state what the source promises:

- read/write discipline:
  - rows at or above the pivot are never written;
  - columns left of the pivot settle once their round has passed;
  - the multiplier is taken before the column loop;
- the chunked round equals the sequential round;
- the last round of the pool variant is empty.

The `Array2D` code has quirks, and the model keeps them as written:

- `rows_len()` returns the column count and `columns_len()` returns the row
  count.
- Both iterators therefore stop after `columns` rows. When `columns > rows`
  they hit an out-of-range slice, modelled as an `Err`.
- `get` computes its offset as `row * rows + column`; see Findings.

## Model

| member | source | states |
|---|---|---|
| Array2d.RowInBounds | src/array2d.rs:71-76 | row i of a rows×columns array is the slice [i·columns, (i+1)·columns), and that slice lies inside the vector |
| Array2d.CellInBounds | src/array2d.rs:83-87 | a checked cell (row, column) has the offset row·columns+column, which lies inside the vector |
| Array2d.RowsDisjoint | src/array2d.rs:92-97 | for rows i < j, the slice of row i ends at or before the slice of row j starts, so the two row slices do not overlap |
| Array2d.GridOf | src/array2d.rs:4-8 | the flat row-major vector read as `rows` rows of `columns` entries each |
| Array2d.GridOfRow | src/array2d.rs:71-76 | row i of the grid view is exactly the vector slice that `index(i)` returns |
| Array2d.GridOfWrite | src/array2d.rs:100-105 | writing offset i·columns+j changes cell (i, j) of the grid and nothing else, so a write through one row leaves every other row unchanged |
| Array2d.Array2D.constructor | src/array2d.rs:11-21 | `new(rows, columns)` holds rows·columns default values with the given dimensions |
| Array2d.Array2D.CheckValues | src/array2d.rs:61-63 | the bounds check: a pair passes exactly when row < rows and column < columns |
| Array2d.Array2D.GetIndex | src/array2d.rs:58-60 | the offset `get` reads, row·rows+column as written (compared with the row-major offset by `GetIndexAgreesIff`) |
| Array2d.Array2D.RowsLen | src/array2d.rs:50-52 | `rows_len()` returns the column count (stated by `LengthAccessorsSwapped`) |
| Array2d.Array2D.ColumnsLen | src/array2d.rs:54-56 | `columns_len()` returns the row count (stated by `LengthAccessorsSwapped`) |
| Array2d.Array2D.Insert | src/array2d.rs:23-33 | it succeeds exactly when the pair passes the bounds check, and then writes only cell (row, column) of the grid; otherwise it panics with the out-of-bounds report and leaves the vector unchanged |
| Array2d.Array2D.InsertUnchecked | src/array2d.rs:34-39 | writes offset row·columns+column with no bounds check and changes nothing else |
| Array2d.Array2D.Get | src/array2d.rs:40-48 | it returns a value exactly when the pair is in bounds and the `get_index` offset lies inside the vector; out-of-bounds pairs report the bounds; the value is the entry at `get_index` |
| Array2d.Array2D.GetCorrected | src/array2d.rs:40-48 | `get` with the row-major offset: it succeeds exactly when the pair is in bounds, and then returns grid cell (row, column) |
| Array2d.Array2D.Row | src/array2d.rs:71-76 | `index(i)` returns `columns` entries, which form row i of the grid |
| Array2d.Array2D.Cell | src/array2d.rs:83-87 | `index((row, column))` is grid cell (row, column) |
| Array2d.Array2D.SetCell | src/array2d.rs:100-105 | `index_mut((row, column))` assignment writes that one offset, and reading the cell back gives the value |
| Array2d.Array2D.SetInRow | src/array2d.rs:90-98 | a write through `index_mut(i)[j]` changes cell (i, j) of the grid and no other cell |
| Array2d.LengthAccessorsSwapped | src/array2d.rs:50-56 | `rows_len()` is the column count and `columns_len()` the row count; each names its own dimension exactly when the array is square |
| Array2d.GetOnSquare | src/array2d.rs:40-48 | on a square array, `get` of an in-bounds pair returns the cell that indexing returns |
| Array2d.GetIndexAgreesIff | src/array2d.rs:58-60 | for an in-bounds pair, `get_index` equals the row-major offset exactly when row = 0 or the array is square |
| Array2d.GetMissesInsertedCell | src/array2d.rs:58-60 | on a 2×3 array, `get(1, 0)` reads vec[2] where `insert(1, 0, _)` writes vec[3] |
| Array2d.GetPanicsInBounds | src/array2d.rs:40-48 | on a 3×2 array, the in-bounds `get(2, 1)` indexes offset 7 of a 6-entry vector |
| Array2d.Array2DIterator.constructor | src/array2d.rs:176-187 | iteration over `&Array2D` starts at row 0, and the rows still to come are the first `rows_len()` rows of the grid |
| Array2d.Array2DIterator.Next | src/array2d.rs:160-172 | it yields row `index` while `index < rows_len()` and `None` after that, and always advances `index`; it fails exactly when the row slice runs past the vector; the rows still to come shrink by the yielded row |
| Array2d.Array2DIntoIterator.constructor | src/array2d.rs:135-146 | the consuming iterator starts at row 0 over the first `rows_len()` rows |
| Array2d.Array2DIntoIterator.Next | src/array2d.rs:114-131 | the same contract as the borrowing iterator, yielding copies of the rows |
| Elimination.UpdateRowFrame | src/main.rs:79-81 | the column loop writes only columns norm .. upto-1, each losing base[c]·m from its old value; the columns before and after keep their values |
| Elimination.UpdateRowNone | src/main.rs:79-81 | with an empty column range the row is unchanged |
| Elimination.UpdateRowStep | src/main.rs:79-81 | one more pass of the column loop is exactly one write, to column c |
| Elimination.Multiplier | src/main.rs:78 | the multiplier of a row against the pivot row in round `norm`: row[norm] / base[norm] |
| Elimination.UpdateRow | src/main.rs:79-81 | the row after the column loop over columns norm .. upto-1 keeps its length (its frame and writes are stated by `UpdateRowFrame`) |
| Elimination.Round | src/main.rs:77-83 | one full round `norm`: the row loop over every row below the pivot (rows at or above it are kept, by `RoundKeepsUpperRows`) |
| Elimination.Eliminated | src/main.rs:76-84 | the forward phase `for norm in 0..(N-1)`: rounds 0 .. N−2, or the system unchanged when N = 0 |
| Elimination.EliminateRows | src/main.rs:77-83 | part of a round changes only the rows and constants of its own row range and keeps every row length and the shape |
| Elimination.EliminatedRow | src/main.rs:77-83 | a reduced row: columns left of the pivot are untouched, each column c ≥ norm becomes a[i][c] − a[norm][c]·m with m = a[i][norm]/a[norm][norm] taken from the rows before the round, and b[i] becomes b[i] − b[norm]·m |
| Elimination.EliminateOneRow | src/main.rs:77-83 | one pass of the row loop replaces row i by the column-loop update with the multiplier taken first, and updates B[i] with the same multiplier |
| Elimination.EliminateRowsSplit | src/main.rs:77 | a round over lo .. hi-1 is the round over lo .. mid-1 followed by the round over mid .. hi-1 |
| Elimination.Forward | src/main.rs:76-84 | the forward phase keeps the shape and every row length, and never modifies row 0 or B[0] |
| Elimination.ForwardKeepsSquare | src/main.rs:76-84 | a square system stays square through the forward phase |
| Elimination.RoundKeepsUpperRows | src/main.rs:77 | round `norm` leaves rows 0 .. norm and their constants unchanged |
| Elimination.ForwardKeepsUpperRows | src/main.rs:76-77 | round k−1 does not change a row above it |
| Elimination.ForwardKeepsUpperConstants | src/main.rs:76-82 | round k−1 does not change a constant above it |
| Elimination.ForwardKeepsLeftColumns | src/main.rs:79 | round k−1 does not change a column c < k−1 of any row |
| Elimination.RoundsSettleRows | src/main.rs:76-84 | once round i has passed, row i never changes again |
| Elimination.RoundsSettleConstants | src/main.rs:76-84 | once round i has passed, B[i] never changes again |
| Elimination.RoundsSettleColumns | src/main.rs:76-84 | once round c has passed, column c of every row never changes again |
| Elimination.FlippedRoundAgrees | src/main.rs:292-295 | when multiplication commutes, a round computed as multiplier·base equals the round computed as base·multiplier |
| Elimination.LastRoundIsEmpty | src/main.rs:254-259 | the final round norm_row = n−1 has no rows below the pivot and changes nothing |
| Elimination.AllRoundsAreEliminated | src/main.rs:254-270 | rounds 0 .. N−1 give the same system as rounds 0 .. N−2 (the `0..(N-1)` loop), since the last round is empty |
| Elimination.Substituted | src/main.rs:86-92 | back substitution from row k down yields one unknown per row k .. N−1 |
| Elimination.Reduced | src/main.rs:88-90 | the descending column loop of back substitution: the constant minus A[row][col]·X[col] for col = N−1 down to row+1, subtracted in that order |
| Elimination.ReducedReadsRight | src/main.rs:88-90 | the column loop of back substitution reads only the columns right of the diagonal |
| Elimination.SubstitutedReadsUpperTriangle | src/main.rs:86-92 | back substitution depends only on the upper triangle (diagonal included) and on B |
| Chunking.ChunkSize | src/main.rs:258 | the chunk size is max(16, (n − norm_row) / total_threads): at least 16, so never zero, and at least the even share per thread |
| Chunking.MIN_CHUNK_SIZE | src/main.rs:248 | the smallest chunk size the pooled solver uses, 16 |
| Chunking.Chunks | src/main.rs:259-261 | the pieces `chunks_mut(size)` cuts from a row range, in order, as absolute spans (their tiling is stated by `ChunksTile`) |
| Chunking.ChunksCount | src/main.rs:259-261 | every piece but the last is `size` rows long, so (pieces − 1)·size is less than the number of rows cut |
| Chunking.JobsPerRound | src/main.rs:258-269 | one round of the pooled solver issues at most 2·total_threads jobs, whichever branch of the chunk-size choice is taken |
| Chunking.ChunksTile | src/main.rs:259-261 | the `chunks_mut(chunk_size)` pieces are non-empty, each at most `chunk_size` long; all but the last have exactly that length; they are contiguous and run from the first row to the last |
| Chunking.ChunkAt | src/main.rs:259-261 | piece k lies inside the range, the next piece starts where it ends, and the last piece ends at the end of the range |
| Chunking.ChunksStart | src/main.rs:259-261 | there are no pieces exactly when the range is empty; otherwise the first piece starts at norm_row+1 |
| Chunking.TilesAscend | src/main.rs:259-261 | pieces come in ascending row order and do not overlap |
| Chunking.TileWithin | src/main.rs:259-261 | every piece lies within the sliced range |
| Chunking.TilesRest | src/main.rs:259-261 | after the first piece, the remaining pieces tile the rest of the range |
| Chunking.TilesCover | src/main.rs:259-261 | a row lies in some piece exactly when it lies in the sliced range |
| Chunking.TilesDisjoint | src/main.rs:259-261 | no row lies in two pieces, so the jobs write disjoint rows |
| Chunking.ChunksZip | src/main.rs:259-264 | the zip pairs the k-th A piece with a B piece that starts at the same row and is at least as long |
| Chunking.ChunksCountZip | src/main.rs:263-264 | B (at least as long as A) has at least as many pieces as A, so the zip stops after the last A piece |
| Chunking.ChunkZipAt | src/main.rs:263-264 | the k-th A and B pieces start at the same row, and the A piece is no longer than the B piece |
| Solvers.RowSolver | src/main.rs:117-123 | the row is updated against `base_row` from column `index` on, with the multiplier taken from the row before the loop; columns before `index` keep their values |
| Solvers.RowSolverIsRoundRow | src/main.rs:117-123 | when multiplication commutes, `row_solver` on a square row computes what round `norm` of `gauss_solver` does to that row |
| Solvers.ChunkUpdate | src/main.rs:283-297 | `rows_solver` on a chunk changes only the chunk's rows and the entries of its B slice, and keeps every row length |
| Solvers.ChunkUpdateStep | src/main.rs:289-296 | one pass of the enumerate loop updates chunk row i over the columns index .. |base|−1 and updates B slice entry i with the same multiplier times `b_value` |
| Solvers.SolveChunkRow | src/main.rs:290-295 | the body of the loop in `rows_solver`: one row and the paired B entry change, both using the multiplier taken before the column loop |
| Solvers.RowsSolver | src/main.rs:283-297 | `rows_solver` leaves A and B as the chunk update describes |
| Solvers.SolveNextChunkRow | src/main.rs:289-296 | one pass of the loop extends the chunk update by one row |
| Solvers.ChunkUpdateIsRound | src/main.rs:283-297 | `rows_solver` over rows lo .. hi-1, with the pivot row and B[norm] as its base, is that part of round `norm` in the multiplier·base order |
| Solvers.ChunkExtendsRound | src/main.rs:263-269 | after the pieces that end at `mid`, the next piece carries the round on to its own end |
| Solvers.RunChunk | src/main.rs:265-267 | one job (`rows_solver` on one zipped pair of pieces) extends the round by the rows of its piece |
| Solvers.RunChunks | src/main.rs:259-269 | the jobs over the zip of `chunks_mut` pieces, run one after another, together complete the whole round |
| Solvers.ChunkedPoolRound | src/main.rs:255-269 | one iteration of the round loop of the pooled solver equals round `norm_row` of `gauss_solver`, given that multiplication commutes |
| Solvers.ChunkedStep | src/main.rs:254-270 | one iteration of the round loop advances the forward phase by one round |
| Solvers.ChunkedForward | src/main.rs:254-270 | rounds 0 .. n−1 of the pooled solver leave A and B as the forward phase of `gauss_solver` does |
| Solvers.GaussSolverWithThreadPoolChunks | src/main.rs:249-281 | the pooled, chunked solver eliminates A and B exactly as `gauss_solver` does, and X[..n] is the back-substituted solution; the rest of X is untouched |
| Solvers.ReduceRow | src/main.rs:77-83 | one pass of the row loop of `gauss_solver` is round `norm` restricted to that row |
| Solvers.ReduceNextRow | src/main.rs:77-83 | one pass of the row loop extends the round by one row |
| Solvers.GaussRound | src/main.rs:76-84 | one iteration of the outer forward loop is exactly round `norm` |
| Solvers.SubtractKnown | src/main.rs:88-90 | the column loop of back substitution changes only X[row], into the descending-column reduction by the known unknowns |
| Solvers.SubstituteRow | src/main.rs:86-92 | one pass of back substitution extends the solved suffix of X by row `row` |
| Solvers.BackSubstitution | src/main.rs:86-92 | back substitution fills X[..N] with the substituted solution and leaves the rest of X unchanged |
| Solvers.GaussSolver | src/main.rs:73-93 | `gauss_solver` leaves A and B as the forward phase does and X[..N] as back substitution computes from them; X beyond N is untouched |
| Solvers.ReduceGridRow | src/main.rs:99-105 | on an `Array2D`, one pass of the row loop writes only row `row`, with the column-loop update |
| Solvers.GridRoundRow | src/main.rs:99-105 | on an `Array2D`, one pass of the row loop extends the round by one row |
| Solvers.GridRound | src/main.rs:98-106 | on an `Array2D`, one iteration of the outer loop is round `norm` of the grid view |
| Solvers.GridForward | src/main.rs:98-106 | the forward phase of `gauss_solver_Array2D` is the same elimination as `gauss_solver`'s, on the grid view |
| Solvers.SubtractKnownGrid | src/main.rs:110-112 | on an `Array2D`, the column loop changes only X[row] |
| Solvers.SubstituteGridRow | src/main.rs:108-114 | on an `Array2D`, one pass of back substitution extends the solved suffix of X |
| Solvers.BackSubstitutionGrid | src/main.rs:108-114 | on an `Array2D`, back substitution computes the same X as on `Vec<Vec<f64>>` |
| Solvers.GaussSolverArray2D | src/main.rs:95-115 | `gauss_solver_Array2D` performs the same elimination and back substitution as `gauss_solver`, on the grid view, with N = `columns_len()` |
| Linearsystem.LinearSystem.constructor | src/linearsystem.rs:10-13 | `new` keeps A and B and makes X a vector of `columns_len()` zeros |
| Linearsystem.LinearSystem.SolveWithGauss | src/linearsystem.rs:15-35 | A and B end as the forward phase leaves them, and X[..N] holds the back-substituted solution, as in `gauss_solver` |
| Linearsystem.LinearSystem.ForwardRound | src/linearsystem.rs:19-25 | one iteration of the outer forward loop is exactly round `norm` |
| Linearsystem.LinearSystem.ForwardRow | src/linearsystem.rs:20-24 | one pass of the row loop extends the round by one row |
| Linearsystem.LinearSystem.BackSubstitute | src/linearsystem.rs:28-34 | back substitution fills X[..N] with the substituted solution and leaves B alone |
| Linearsystem.LinearSystem.SubstituteRow | src/linearsystem.rs:29-33 | one pass extends the solved suffix of X by one row |
| Linearsystem.LinearSystem.SubtractKnown | src/linearsystem.rs:30-32 | the column loop changes only X[row] |

## Left out

- Threads, the `scoped_pool` pool and its `scoped`/`execute` dispatch are left out. The jobs of each round write disjoint rows (`Chunking.TilesDisjoint`), so they are run one after another, in zip order.
- `gauss_solver_with_threads`, `gauss_solver_with_futures` (tokio), `gauss_solver_with_thread_pool` and `row_solver_with_simd` are left out. They are concurrency variants, and the last is an unimplemented stub. `row_solver` is modelled on its own, and as the row update these variants share.
- `available_parallelism()` is left out. It becomes the parameter `totalThreads`, required to be at least 1, as the non-zero count it returns.
- `main`, `show_time`, the timing, and `LinearSystem::print` are left out, because they are only I/O.
- `create_values` and `create_values_array2d` are left out, because they draw random numbers. The n×n shape they build appears as the `Square` and `Shaped` requirements.
- f64 arithmetic is left uninterpreted, so results are exact expressions over abstract `-`, `*` and `/`. Rounding, division by a zero pivot and NaN propagation are not special-cased.
- usize overflow of `row * columns + column` and of `columns * rows` is not modelled, because integers are unbounded.
- Ownership, lifetimes and the `Clone` of yielded rows are not modelled. Both iterators yield the row's values.
- Panics are modelled as error results in three places: a failed `check_values` in `insert` and `get`, `get`'s out-of-range `get_index` offset, and the iterators' out-of-range row slice. Every other indexing panic is modelled as a `requires`, including slice and element indexing, `A[row][norm]`, and `0..(N-1)` underflowing when N = 0.
- Solvers.GaussSolverWithThreadPoolChunks: requires every row to be exactly n long, as `create_values` builds them. With longer rows, `rows_solver` would also update columns n and beyond, which the sequential kernels never touch.
- Solvers.GaussSolver: the separation requirement (`Separate`) mirrors the exclusive `&mut` borrows of A, B and X. Aliasing between them is therefore not modelled.
- Linearsystem.LinearSystem.SolveWithGauss: requires rows ≤ columns, which is exactly the source's no-panic condition.
  - N is `columns_len()`, the row count.
  - Every row slice `A[row]` exists on a valid array, but the element access `A[row][col]` runs col up to N−1.
  - With rows > columns the source always panics, at the latest at `A[N-1][N-1]` (src/linearsystem.rs:33).
  - With rows < columns it never panics.
- Solvers.GaussSolverArray2D: requires rows ≤ columns, for the same reason and as the same exact no-panic condition (`A[row][row]` at src/main.rs:113).

## Findings

| source | as written | input that shows it | evidently intended | confidence | as-written member | corrected member |
|---|---|---|---|---|---|---|
| src/array2d.rs:58-60 | `get_index` returns `row * rows + column`, so `get` uses a different offset from `insert`, `insert_unchecked` and both `Index` impls, which use `row * columns + column` | a 2×3 array: `get(1, 0)` reads vec[2] while `insert(1, 0, v)` wrote vec[3]; a 3×2 array: the in-bounds `get(2, 1)` indexes offset 7 of a 6-entry vector and panics | `row * columns + column`, so that `get` returns the cell `insert` wrote | high for non-square arrays; not executed | Array2d.GetMissesInsertedCell | Array2d.Array2D.GetCorrected |
