/**
 * The solver functions of the program's entry file: the sequential kernel on
 * a vector of row vectors, the same kernel on an `Array2D`, the per-row and
 * per-chunk row updates, and the pooled-chunked variant with its jobs run one
 * after another. A `Vec<Vec<f64>>` is an array of row values: its rows are
 * owned and never shared, so a row is a sequence the kernel replaces. A
 * `&mut Vec<f64>` or `&mut [f64]` is an array; a `&Vec<f64>` or `&[f64]`
 * that is only read is a sequence.
 */
module Solvers {
  import opened Elimination
  import opened Chunking
  import opened Array2d

  /** A, B and X are three separate vectors, as Rust's exclusive borrows make them. */
  predicate Separate<F>(A: array<seq<F>>, B: array<F>, X: array<F>) {
    A as object != B && A as object != X && B != X
  }

  /**
   * `row_solver`: the multiplier row[index] / base[index] is taken once,
   * before the loop, and `multiplier * base[c]` is subtracted from every
   * column c = index .. |row|-1. Columns left of `index` keep their values
   * and `base` is only read.
   */
  method RowSolver<F>(ar: Arith<F>, rowNormalizing: array<F>, baseRow: seq<F>, index: nat)
    requires index < rowNormalizing.Length <= |baseRow|
    modifies rowNormalizing
    ensures rowNormalizing[..] == UpdateRow(Flipped(ar), old(rowNormalizing[..]), baseRow, index, rowNormalizing.Length,
                                            Multiplier(ar, old(rowNormalizing[..]), baseRow, index))
    ensures rowNormalizing[..index] == old(rowNormalizing[..index])
  {
    ghost var row := rowNormalizing[..];
    var multiplier := ar.div(rowNormalizing[index], baseRow[index]);
    UpdateRowNone(Flipped(ar), row, baseRow, index, multiplier);
    for indCol := index to rowNormalizing.Length
      invariant rowNormalizing[..] == UpdateRow(Flipped(ar), row, baseRow, index, indCol, multiplier)
    {
      UpdateRowStep(Flipped(ar), row, baseRow, index, indCol, multiplier);
      rowNormalizing[indCol] := ar.sub(rowNormalizing[indCol], ar.mul(multiplier, baseRow[indCol]));
    }
    UpdateRowFrame(Flipped(ar), row, baseRow, index, rowNormalizing.Length, multiplier);
  }

  /**
   * What `row_solver` does to row i of a round's system, handed the pivot row
   * as its base: when the row is N long and multiplication commutes, it is
   * the row that round `norm` of the sequential kernel computes.
   */
  lemma RowSolverIsRoundRow<F(!new)>(ar: Arith<F>, s: System<F>, norm: nat, i: nat)
    requires Commutes(ar) && Shaped(s) && norm < i < |s.a| && |s.a[i]| == |s.a|
    ensures UpdateRow(Flipped(ar), s.a[i], s.a[norm], norm, |s.a[i]|, Multiplier(ar, s.a[i], s.a[norm], norm))
            == EliminateRows(ar, s, norm, i, i + 1).a[i]
  {
    FlippedRoundAgrees(ar, s, norm, i, i + 1);
    EliminatedRow(Flipped(ar), s, norm, i, i + 1, i);
    var m := Multiplier(ar, s.a[i], s.a[norm], norm);
    var u := UpdateRow(Flipped(ar), s.a[i], s.a[norm], norm, |s.a[i]|, m);
    assert forall c :: 0 <= c < |u| ==> u[c] == EliminateRows(Flipped(ar), s, norm, i, i + 1).a[i][c];
  }

  /**
   * `rows_solver` on the chunk of rows lo .. hi-1 with its slice of B
   * starting at bLo: chunk row i gets the row update against `base` over
   * the columns index .. |base|-1, with the multiplier taken from the row
   * before the update, and B[bLo + i] loses the same multiplier times
   * `bValue`. Every other row and every other entry of B keep their values.
   */
  function ChunkUpdate<F>(ar: Arith<F>, s: System<F>, lo: nat, hi: nat, base: seq<F>, index: nat, bLo: nat, bValue: F): (r: System<F>)
    requires lo <= hi <= |s.a| && bLo + (hi - lo) <= |s.b|
    requires lo < hi ==> index < |base|
    requires forall i :: lo <= i < hi ==> |base| <= |s.a[i]|
    ensures |r.a| == |s.a| && |r.b| == |s.b|
    ensures forall i :: 0 <= i < |s.a| ==> |r.a[i]| == |s.a[i]|
    ensures forall i :: 0 <= i < |s.a| && !(lo <= i < hi) ==> r.a[i] == s.a[i]
    ensures forall k :: 0 <= k < |s.b| && !(bLo <= k < bLo + (hi - lo)) ==> r.b[k] == s.b[k]
  {
    System(seq(|s.a|, i requires 0 <= i < |s.a| => ChunkRowAfter(ar, s, lo, hi, base, index, i)),
           seq(|s.b|, k requires 0 <= k < |s.b| => ChunkConstantAfter(ar, s, lo, hi, base, index, bLo, bValue, k)))
  }

  /** Row i after `rows_solver` on the chunk lo .. hi-1. */
  function ChunkRowAfter<F>(ar: Arith<F>, s: System<F>, lo: nat, hi: nat, base: seq<F>, index: nat, i: nat): (r: seq<F>)
    requires lo <= hi <= |s.a| && i < |s.a|
    requires lo < hi ==> index < |base|
    requires forall i :: lo <= i < hi ==> |base| <= |s.a[i]|
    ensures |r| == |s.a[i]|
  {
    if lo <= i < hi then UpdateRow(Flipped(ar), s.a[i], base, index, |base|, Multiplier(ar, s.a[i], base, index)) else s.a[i]
  }

  /** B[k] after `rows_solver` on the chunk lo .. hi-1 paired with the slice of B from bLo. */
  function ChunkConstantAfter<F>(ar: Arith<F>, s: System<F>, lo: nat, hi: nat, base: seq<F>, index: nat, bLo: nat, bValue: F, k: nat): F
    requires lo <= hi <= |s.a| && bLo + (hi - lo) <= |s.b| && k < |s.b|
    requires lo < hi ==> index < |base|
    requires forall i :: lo <= i < hi ==> |base| <= |s.a[i]|
  {
    if bLo <= k < bLo + (hi - lo) then ar.sub(s.b[k], ar.mul(Multiplier(ar, s.a[lo + (k - bLo)], base, index), bValue)) else s.b[k]
  }

  /** Extending a chunk by its next row is one more row update and one more B update. */
  lemma ChunkUpdateStep<F>(ar: Arith<F>, s: System<F>, lo: nat, mid: nat, base: seq<F>, index: nat, bLo: nat, bValue: F)
    requires lo <= mid < |s.a| && bLo + (mid + 1 - lo) <= |s.b|
    requires index < |base| && forall i :: lo <= i <= mid ==> |base| <= |s.a[i]|
    ensures var t := ChunkUpdate(ar, s, lo, mid, base, index, bLo, bValue);
      var m := Multiplier(ar, s.a[mid], base, index);
      ChunkUpdate(ar, s, lo, mid + 1, base, index, bLo, bValue)
      == System(t.a[mid := UpdateRow(Flipped(ar), s.a[mid], base, index, |base|, m)],
                t.b[bLo + (mid - lo) := ar.sub(s.b[bLo + (mid - lo)], ar.mul(m, bValue))])
  {
    var t := ChunkUpdate(ar, s, lo, mid, base, index, bLo, bValue);
    var u := ChunkUpdate(ar, s, lo, mid + 1, base, index, bLo, bValue);
    var m := Multiplier(ar, s.a[mid], base, index);
    assert u.a == t.a[mid := UpdateRow(Flipped(ar), s.a[mid], base, index, |base|, m)];
    assert u.b == t.b[bLo + (mid - lo) := ar.sub(s.b[bLo + (mid - lo)], ar.mul(m, bValue))];
  }

  /**
   * One iteration of the loop of `rows_solver`: the multiplier of row r is
   * taken before its column loop, the column loop runs to |base|, and the
   * paired entry B[k] is reduced with the same multiplier.
   */
  method SolveChunkRow<F>(ar: Arith<F>, A: array<seq<F>>, r: nat, baseRow: seq<F>, index: nat,
                          B: array<F>, k: nat, bValue: F)
    requires A as object != B && r < A.Length && k < B.Length && index < |baseRow| <= |A[r]|
    modifies A, B
    ensures A[..] == old(A[..])[r := UpdateRow(Flipped(ar), old(A[r]), baseRow, index, |baseRow|,
                                               Multiplier(ar, old(A[r]), baseRow, index))]
    ensures B[..] == old(B[..])[k := ar.sub(old(B[k]), ar.mul(Multiplier(ar, old(A[r]), baseRow, index), bValue))]
  {
    ghost var row := A[r];
    var multiplier := ar.div(A[r][index], baseRow[index]);
    UpdateRowNone(Flipped(ar), row, baseRow, index, multiplier);
    for indexCol := index to |baseRow|
      modifies A
      invariant A[..] == old(A[..])[r := UpdateRow(Flipped(ar), row, baseRow, index, indexCol, multiplier)]
    {
      UpdateRowStep(Flipped(ar), row, baseRow, index, indexCol, multiplier);
      A[r] := A[r][indexCol := ar.sub(A[r][indexCol], ar.mul(multiplier, baseRow[indexCol]))];
    }
    B[k] := ar.sub(B[k], ar.mul(multiplier, bValue));
  }

  /**
   * `rows_solver` on the chunk A[lo..hi] and the slice B[bLo..bHi]: the
   * rows are reduced one after another, chunk row i paired with
   * B[bLo + i]. The slice of B must be at least as long as the chunk.
   */
  method RowsSolver<F>(ar: Arith<F>, A: array<seq<F>>, lo: nat, hi: nat, baseRow: seq<F>, index: nat,
                       B: array<F>, bLo: nat, bHi: nat, bValue: F)
    requires A as object != B && lo <= hi <= A.Length && bLo <= bHi <= B.Length && hi - lo <= bHi - bLo
    requires lo < hi ==> index < |baseRow|
    requires forall i :: lo <= i < hi ==> |baseRow| <= |A[i]|
    modifies A, B
    ensures System(A[..], B[..]) == ChunkUpdate(ar, old(System(A[..], B[..])), lo, hi, baseRow, index, bLo, bValue)
  {
    ghost var S := System(A[..], B[..]);
    for i := 0 to hi - lo
      invariant System(A[..], B[..]) == ChunkUpdate(ar, S, lo, lo + i, baseRow, index, bLo, bValue)
    {
      SolveNextChunkRow(ar, A, lo, lo + i, baseRow, index, B, bLo, bValue, S);
    }
  }

  /** `SolveChunkRow` on the chunk row after those `rows_solver` has already reduced. */
  method SolveNextChunkRow<F>(ar: Arith<F>, A: array<seq<F>>, lo: nat, r: nat, baseRow: seq<F>, index: nat,
                              B: array<F>, bLo: nat, bValue: F, ghost S: System<F>)
    requires A as object != B && lo <= r < |S.a| && bLo + (r + 1 - lo) <= |S.b|
    requires index < |baseRow| && forall i :: lo <= i <= r ==> |baseRow| <= |S.a[i]|
    requires System(A[..], B[..]) == ChunkUpdate(ar, S, lo, r, baseRow, index, bLo, bValue)
    modifies A, B
    ensures System(A[..], B[..]) == ChunkUpdate(ar, S, lo, r + 1, baseRow, index, bLo, bValue)
  {
    SolveChunkRow(ar, A, r, baseRow, index, B, bLo + (r - lo), bValue);
    ChunkUpdateStep(ar, S, lo, r, baseRow, index, bLo, bValue);
  }

  /**
   * A chunk of rows below the pivot, reduced by `rows_solver` against the
   * pivot row and the pivot constant, with the B slice starting at the
   * chunk's first row, is round `norm` on those rows, with the factors of
   * each product swapped.
   */
  lemma ChunkUpdateIsRound<F>(ar: Arith<F>, s: System<F>, norm: nat, lo: nat, hi: nat)
    requires Shaped(s) && norm < lo <= hi <= |s.a| && |s.a[norm]| == |s.a|
    ensures ChunkUpdate(ar, s, lo, hi, s.a[norm], norm, lo, s.b[norm]) == EliminateRows(Flipped(ar), s, norm, lo, hi)
  {
    var u := ChunkUpdate(ar, s, lo, hi, s.a[norm], norm, lo, s.b[norm]);
    var w := EliminateRows(Flipped(ar), s, norm, lo, hi);
    assert u.a == w.a;
    assert u.b == w.b;
  }

  /**
   * A chunk handed to `rows_solver` right after the rows norm+1 .. mid-1,
   * with the pivot row and pivot constant as they were before the round,
   * extends round `norm` (with swapped products) to the rows up to hi-1.
   */
  lemma ChunkExtendsRound<F>(ar: Arith<F>, s: System<F>, norm: nat, mid: nat, hi: nat)
    requires Shaped(s) && norm < mid <= hi <= |s.a| && |s.a[norm]| == |s.a|
    ensures var t := EliminateRows(Flipped(ar), s, norm, norm + 1, mid);
      ChunkUpdate(ar, t, mid, hi, s.a[norm], norm, mid, s.b[norm]) == EliminateRows(Flipped(ar), s, norm, norm + 1, hi)
  {
    var t := EliminateRows(Flipped(ar), s, norm, norm + 1, mid);
    ChunkUpdateIsRound(ar, t, norm, mid, hi);
    EliminateRowsSplit(Flipped(ar), s, norm, norm + 1, mid, hi);
  }

  /**
   * The back-substitution loop shared by the kernels on a vector of rows:
   * for row = N-1 down to 0, X[row] = (B[row] - A[row][col] * X[col] for
   * col = N-1 down to row+1) / A[row][row]. Every X[..N] is overwritten,
   * and nothing else changes.
   */
  method BackSubstitution<F>(ar: Arith<F>, A: array<seq<F>>, B: array<F>, X: array<F>)
    requires A as object != X && B != X && Shaped(System(A[..], B[..])) && A.Length <= X.Length
    modifies X
    ensures X[..A.Length] == Substituted(ar, System(A[..], B[..]), 0)
    ensures X[A.Length..] == old(X[A.Length..])
  {
    var N := A.Length;
    var row: nat := N;
    while row > 0
      invariant row <= N
      invariant X[row..N] == Substituted(ar, System(A[..], B[..]), row)
      invariant X[N..] == old(X[N..])
    {
      row := row - 1;
      SubstituteRow(ar, A, B, X, row);
    }
    assert X[..N] == X[row..N];
  }

  /**
   * One pass of the back-substitution loop: X[row] = B[row], minus
   * A[row][col] * X[col] for col = N-1 down to row+1, divided by
   * A[row][row], when X[row+1..N] already holds its final values.
   */
  method SubstituteRow<F>(ar: Arith<F>, A: array<seq<F>>, B: array<F>, X: array<F>, row: nat)
    requires A as object != X && B != X && Shaped(System(A[..], B[..])) && row < A.Length <= X.Length
    requires X[row + 1..A.Length] == Substituted(ar, System(A[..], B[..]), row + 1)
    modifies X
    ensures X[row..A.Length] == Substituted(ar, System(A[..], B[..]), row)
    ensures X[A.Length..] == old(X[A.Length..])
  {
    var N := A.Length;
    X[row] := B[row];
    SubtractKnown(ar, A, X, row);
    X[row] := ar.div(X[row], A[row][row]);
    assert X[row..N] == [X[row]] + X[row + 1..N];
  }

  /**
   * The column loop of one back-substitution pass: X[row] -= A[row][col] * X[col]
   * for col = N-1 down to row+1; no other element of X changes.
   */
  method SubtractKnown<F>(ar: Arith<F>, A: array<seq<F>>, X: array<F>, row: nat)
    requires A as object != X && row < A.Length <= X.Length && A.Length <= |A[row]|
    modifies X
    ensures X[..] == old(X[..])[row := Reduced(ar, A[row], old(X[row]), old(X[row + 1..A.Length]), row, row + 1, A.Length)]
  {
    var N := A.Length;
    ghost var X0 := X[..];
    var col := N;
    while col > row + 1
      invariant row + 1 <= col <= N
      invariant X[..] == X0[row := Reduced(ar, A[row], X0[row], X0[row + 1..N], row, col, N)]
    {
      col := col - 1;
      assert X[col] == X0[row + 1..N][col - row - 1];
      X[row] := ar.sub(X[row], ar.mul(A[row][col], X[col]));
    }
  }

  /**
   * The body of the row loop of `gauss_solver`: the multiplier
   * A[row][norm] / A[norm][norm] is taken first, then
   * A[row][col] -= A[norm][col] * multiplier for col = norm .. N-1, then
   * B[row] -= B[norm] * multiplier. That is round `norm` on the single row
   * `row`.
   */
  method ReduceRow<F>(ar: Arith<F>, A: array<seq<F>>, B: array<F>, norm: nat, row: nat)
    requires A as object != B && Shaped(System(A[..], B[..])) && norm < row < A.Length
    modifies A, B
    ensures System(A[..], B[..]) == EliminateRows(ar, old(System(A[..], B[..])), norm, row, row + 1)
  {
    var N := A.Length;
    ghost var S := System(A[..], B[..]);
    var multiplier := ar.div(A[row][norm], A[norm][norm]);
    UpdateRowNone(ar, S.a[row], S.a[norm], norm, multiplier);
    for col := norm to N
      modifies A
      invariant A[..] == S.a[row := UpdateRow(ar, S.a[row], S.a[norm], norm, col, multiplier)]
    {
      UpdateRowStep(ar, S.a[row], S.a[norm], norm, col, multiplier);
      assert A[norm] == S.a[norm] && A[row][col] == S.a[row][col];
      A[row] := A[row][col := ar.sub(A[row][col], ar.mul(A[norm][col], multiplier))];
      assert A[row] == UpdateRow(ar, S.a[row], S.a[norm], norm, col + 1, multiplier);
    }
    B[row] := ar.sub(B[row], ar.mul(B[norm], multiplier));
    EliminateOneRow(ar, S, norm, row);
  }

  /**
   * `gauss_solver`: rounds norm = 0 .. N-2 of forward elimination over the
   * columns norm .. N-1, then back substitution. A and B end as the forward
   * phase leaves them and X[..N] holds the back-substituted values; nothing
   * else changes. `0..(N-1)` on usize needs N >= 1.
   */
  method GaussSolver<F>(ar: Arith<F>, A: array<seq<F>>, B: array<F>, X: array<F>)
    requires 1 <= A.Length && Separate(A, B, X) && Shaped(System(A[..], B[..])) && A.Length <= X.Length
    modifies A, B, X
    ensures System(A[..], B[..]) == Eliminated(ar, old(System(A[..], B[..])))
    ensures X[..A.Length] == Substituted(ar, System(A[..], B[..]), 0)
    ensures X[A.Length..] == old(X[A.Length..])
  {
    ghost var S0 := System(A[..], B[..]);
    var N := A.Length;
    for norm := 0 to N - 1
      invariant System(A[..], B[..]) == Forward(ar, S0, norm)
      invariant X[..] == old(X[..])
    {
      GaussRound(ar, A, B, norm);
    }
    BackSubstitution(ar, A, B, X);
  }

  /** One pass of the outer loop of `gauss_solver`: the rows norm+1 .. N-1 in ascending order. */
  method GaussRound<F>(ar: Arith<F>, A: array<seq<F>>, B: array<F>, norm: nat)
    requires A as object != B && Shaped(System(A[..], B[..])) && norm < A.Length
    modifies A, B
    ensures System(A[..], B[..]) == Round(ar, old(System(A[..], B[..])), norm)
  {
    ghost var Sr := System(A[..], B[..]);
    var N := A.Length;
    for row := norm + 1 to N
      invariant System(A[..], B[..]) == EliminateRows(ar, Sr, norm, norm + 1, row)
    {
      ReduceNextRow(ar, A, B, norm, row, Sr);
    }
  }

  /** `ReduceRow` on the row after those round `norm` has already reduced. */
  method ReduceNextRow<F>(ar: Arith<F>, A: array<seq<F>>, B: array<F>, norm: nat, row: nat, ghost Sr: System<F>)
    requires A as object != B && Shaped(Sr) && norm < row < |Sr.a|
    requires System(A[..], B[..]) == EliminateRows(ar, Sr, norm, norm + 1, row)
    modifies A, B
    ensures System(A[..], B[..]) == EliminateRows(ar, Sr, norm, norm + 1, row + 1)
  {
    ReduceRow(ar, A, B, norm, row);
    EliminateRowsSplit(ar, Sr, norm, norm + 1, row, row + 1);
  }

  /**
   * `gauss_solver_with_thread_pool_chunks` with its jobs run one after
   * another: rounds norm_row = 0 .. n-1; in each, the base row and B[norm_row]
   * are read once, `A[norm_row+1..]` and `B[norm_row+1..]` are cut into
   * `chunks_mut(chunk_size)` pieces, the pieces are zipped and each pair is
   * handed to `rows_solver`; then back substitution. With square rows and
   * commuting multiplication it leaves A, B and X as `gauss_solver` does.
   */
  method GaussSolverWithThreadPoolChunks<F(!new)>(ar: Arith<F>, A: array<seq<F>>, B: array<F>, X: array<F>, totalThreads: nat)
    requires Commutes(ar) && 1 <= totalThreads
    requires Separate(A, B, X) && Square(System(A[..], B[..])) && A.Length <= X.Length
    modifies A, B, X
    ensures System(A[..], B[..]) == Eliminated(ar, old(System(A[..], B[..])))
    ensures X[..A.Length] == Substituted(ar, System(A[..], B[..]), 0)
    ensures X[A.Length..] == old(X[A.Length..])
  {
    ChunkedForward(ar, A, B, totalThreads);
    BackSubstitution(ar, A, B, X);
  }

  /** The round loop of `gauss_solver_with_thread_pool_chunks`: every round norm_row = 0 .. N-1, the last one empty. */
  method ChunkedForward<F(!new)>(ar: Arith<F>, A: array<seq<F>>, B: array<F>, totalThreads: nat)
    requires Commutes(ar) && 1 <= totalThreads
    requires A as object != B && Square(System(A[..], B[..]))
    modifies A, B
    ensures System(A[..], B[..]) == Eliminated(ar, old(System(A[..], B[..])))
  {
    ghost var S0 := System(A[..], B[..]);
    var n := A.Length;
    for normRow := 0 to n
      invariant System(A[..], B[..]) == Forward(ar, S0, normRow)
    {
      ChunkedStep(ar, A, B, normRow, totalThreads, S0);
    }
    AllRoundsAreEliminated(ar, S0);
  }

  /** One pass of that loop, after the rounds before `normRow`: the matrix is still square. */
  method ChunkedStep<F(!new)>(ar: Arith<F>, A: array<seq<F>>, B: array<F>, normRow: nat, totalThreads: nat, ghost S0: System<F>)
    requires Commutes(ar) && 1 <= totalThreads
    requires A as object != B && Square(S0) && normRow < |S0.a|
    requires System(A[..], B[..]) == Forward(ar, S0, normRow)
    modifies A, B
    ensures System(A[..], B[..]) == Forward(ar, S0, normRow + 1)
  {
    ForwardKeepsSquare(ar, S0, normRow);
    ChunkedPoolRound(ar, A, B, normRow, totalThreads);
  }

  /**
   * One pass of the round loop of `gauss_solver_with_thread_pool_chunks`:
   * the chunk size, the two `chunks_mut` splits, and `rows_solver` on each
   * zipped pair of pieces, one after another.
   */
  method ChunkedPoolRound<F(!new)>(ar: Arith<F>, A: array<seq<F>>, B: array<F>, normRow: nat, totalThreads: nat)
    requires Commutes(ar) && 1 <= totalThreads
    requires A as object != B && Square(System(A[..], B[..])) && normRow < A.Length
    modifies A, B
    ensures System(A[..], B[..]) == Round(ar, old(System(A[..], B[..])), normRow)
  {
    var n := A.Length;
    ghost var Sr := System(A[..], B[..]);
    var baseRow := A[normRow];
    var bValue := B[normRow];
    var chunkSize := ChunkSize(n, normRow, totalThreads);
    var matrix := Chunks(normRow + 1, n, chunkSize);
    var result := Chunks(normRow + 1, B.Length, chunkSize);
    RunChunks(ar, A, B, normRow, baseRow, bValue, matrix, result, chunkSize);
    FlippedRoundAgrees(ar, Sr, normRow, normRow + 1, n);
  }

  /**
   * The scoped jobs of one round run one after another: `rows_solver` on
   * each A piece zipped with its B piece, against the base row and base
   * constant read before the round.
   */
  method RunChunks<F>(ar: Arith<F>, A: array<seq<F>>, B: array<F>, normRow: nat, baseRow: seq<F>, bValue: F,
                      matrix: seq<Span>, result: seq<Span>, chunkSize: nat)
    requires A as object != B && Square(System(A[..], B[..])) && normRow < A.Length
    requires baseRow == A[normRow] && bValue == B[normRow]
    requires 0 < chunkSize && matrix == Chunks(normRow + 1, A.Length, chunkSize) && result == Chunks(normRow + 1, B.Length, chunkSize)
    modifies A, B
    ensures System(A[..], B[..]) == EliminateRows(Flipped(ar), old(System(A[..], B[..])), normRow, normRow + 1, A.Length)
  {
    var n := A.Length;
    ghost var Sr := System(A[..], B[..]);
    ghost var reached := normRow + 1;
    ChunksStart(normRow + 1, n, chunkSize);
    for k := 0 to |matrix|
      invariant normRow < reached <= n
      invariant k < |matrix| ==> matrix[k].lo == reached
      invariant k == |matrix| ==> reached == n
      invariant System(A[..], B[..]) == EliminateRows(Flipped(ar), Sr, normRow, normRow + 1, reached)
    {
      ChunkAt(normRow + 1, n, chunkSize, k);
      ChunkZipAt(normRow + 1, n, B.Length, chunkSize, k);
      ChunkAt(normRow + 1, B.Length, chunkSize, k);
      var piece, slice := matrix[k], result[k];
      RunChunk(ar, A, B, normRow, baseRow, bValue, piece, slice, Sr);
      reached := piece.hi;
    }
  }

  /**
   * One scoped job: `rows_solver` on an A piece and its zipped B piece,
   * when the rows before the piece are already done; afterwards the rows up
   * to the end of the piece are done.
   */
  method RunChunk<F>(ar: Arith<F>, A: array<seq<F>>, B: array<F>, normRow: nat, baseRow: seq<F>, bValue: F,
                     piece: Span, slice: Span, ghost Sr: System<F>)
    requires A as object != B && Square(Sr) && normRow < piece.lo <= piece.hi <= |Sr.a|
    requires slice.lo == piece.lo && piece.hi <= slice.hi <= |Sr.b|
    requires baseRow == Sr.a[normRow] && bValue == Sr.b[normRow]
    requires System(A[..], B[..]) == EliminateRows(Flipped(ar), Sr, normRow, normRow + 1, piece.lo)
    modifies A, B
    ensures System(A[..], B[..]) == EliminateRows(Flipped(ar), Sr, normRow, normRow + 1, piece.hi)
  {
    RowsSolver(ar, A, piece.lo, piece.hi, baseRow, normRow, B, slice.lo, slice.hi, bValue);
    ChunkExtendsRound(ar, Sr, normRow, piece.lo, piece.hi);
  }

  /**
   * The column loop of `gauss_solver_Array2D` for one row below the pivot:
   * A[row][col] -= A[norm][col] * multiplier for col = norm .. N-1, with
   * N = columns_len() and both rows read through row indexing.
   */
  method ReduceGridRow<F>(ar: Arith<F>, A: Array2D<F>, norm: nat, row: nat, multiplier: F)
    requires A.Valid() && norm < row < A.rows <= A.columns
    modifies A
    ensures A.Valid()
    ensures A.Grid() == old(A.Grid())[row := UpdateRow(ar, old(A.Grid())[row], old(A.Grid())[norm], norm, A.rows, multiplier)]
  {
    ghost var G := A.Grid();
    var N := A.ColumnsLen();
    UpdateRowNone(ar, G[row], G[norm], norm, multiplier);
    RowInBounds(row, A.rows, A.columns);
    RowInBounds(norm, A.rows, A.columns);
    for col := norm to N
      invariant A.Valid()
      invariant A.Grid() == G[row := UpdateRow(ar, G[row], G[norm], norm, col, multiplier)]
    {
      UpdateRowStep(ar, G[row], G[norm], norm, col, multiplier);
      assert A.Row(norm) == G[norm] && A.Row(row)[col] == G[row][col];
      A.SetInRow(row, col, ar.sub(A.Row(row)[col], ar.mul(A.Row(norm)[col], multiplier)));
    }
  }

  /**
   * The back-substitution loop of `gauss_solver_Array2D`, reading A through
   * row indexing; it writes X[..N] only.
   */
  method BackSubstitutionGrid<F>(ar: Arith<F>, A: Array2D<F>, B: array<F>, X: array<F>)
    requires A.Valid() && A.rows <= A.columns && B != X && A.rows <= B.Length && A.rows <= X.Length
    modifies X
    ensures X[..A.rows] == Substituted(ar, System(A.Grid(), B[..]), 0)
    ensures X[A.rows..] == old(X[A.rows..])
  {
    var N := A.ColumnsLen();
    var row: nat := N;
    while row > 0
      invariant row <= N
      invariant X[row..N] == Substituted(ar, System(A.Grid(), B[..]), row)
      invariant X[N..] == old(X[N..])
    {
      row := row - 1;
      SubstituteGridRow(ar, A, B, X, row);
    }
    assert X[..N] == X[row..N];
  }

  /** One pass of the back-substitution loop of `gauss_solver_Array2D`, as `SubstituteRow`. */
  method SubstituteGridRow<F>(ar: Arith<F>, A: Array2D<F>, B: array<F>, X: array<F>, row: nat)
    requires A.Valid() && A.rows <= A.columns && B != X && row < A.rows <= B.Length && A.rows <= X.Length
    requires X[row + 1..A.rows] == Substituted(ar, System(A.Grid(), B[..]), row + 1)
    modifies X
    ensures X[row..A.rows] == Substituted(ar, System(A.Grid(), B[..]), row)
    ensures X[A.rows..] == old(X[A.rows..])
  {
    var N := A.ColumnsLen();
    RowInBounds(row, A.rows, A.columns);
    X[row] := B[row];
    SubtractKnownGrid(ar, A, X, row);
    X[row] := ar.div(X[row], A.Row(row)[row]);
    assert X[row..N] == [X[row]] + X[row + 1..N];
  }

  /** The column loop of one back-substitution pass of `gauss_solver_Array2D`, as `SubtractKnown`. */
  method SubtractKnownGrid<F>(ar: Arith<F>, A: Array2D<F>, X: array<F>, row: nat)
    requires A.Valid() && row < A.rows <= A.columns && A.rows <= X.Length
    modifies X
    ensures X[..] == old(X[..])[row := Reduced(ar, A.Grid()[row], old(X[row]), old(X[row + 1..A.rows]), row, row + 1, A.rows)]
  {
    var N := A.ColumnsLen();
    RowInBounds(row, A.rows, A.columns);
    ghost var X0 := X[..];
    var col := N;
    while col > row + 1
      invariant row + 1 <= col <= N
      invariant X[..] == X0[row := Reduced(ar, A.Grid()[row], X0[row], X0[row + 1..N], row, col, N)]
    {
      col := col - 1;
      assert X[col] == X0[row + 1..N][col - row - 1];
      X[row] := ar.sub(X[row], ar.mul(A.Row(row)[col], X[col]));
    }
  }

  /**
   * `gauss_solver_Array2D`: the reads and writes of `gauss_solver` on a flat
   * row-major array, with N = columns_len() (the row count). Row indexing
   * needs N <= the column count, and `0..(N-1)` needs N >= 1. It leaves the
   * array, B and X as `gauss_solver` leaves the same rows.
   */
  method GaussSolverArray2D<F>(ar: Arith<F>, A: Array2D<F>, B: array<F>, X: array<F>)
    requires A.Valid() && 1 <= A.rows <= A.columns && B != X && A.rows <= B.Length && A.rows <= X.Length
    modifies A, B, X
    ensures A.Valid()
    ensures System(A.Grid(), B[..]) == Eliminated(ar, old(System(A.Grid(), B[..])))
    ensures X[..A.rows] == Substituted(ar, System(A.Grid(), B[..]), 0)
    ensures X[A.rows..] == old(X[A.rows..])
  {
    GridForward(ar, A, B);
    BackSubstitutionGrid(ar, A, B, X);
  }

  /** The forward phase of `gauss_solver_Array2D`: rounds norm = 0 .. N-2. */
  method GridForward<F>(ar: Arith<F>, A: Array2D<F>, B: array<F>)
    requires A.Valid() && 1 <= A.rows <= A.columns && A.rows <= B.Length
    modifies A, B
    ensures A.Valid()
    ensures System(A.Grid(), B[..]) == Eliminated(ar, old(System(A.Grid(), B[..])))
  {
    ghost var S0 := System(A.Grid(), B[..]);
    var N := A.ColumnsLen();
    for norm := 0 to N - 1
      invariant A.Valid()
      invariant System(A.Grid(), B[..]) == Forward(ar, S0, norm)
    {
      GridRound(ar, A, B, norm);
    }
  }

  /** One pass of the outer loop of `gauss_solver_Array2D`: the rows norm+1 .. N-1 in ascending order. */
  method GridRound<F>(ar: Arith<F>, A: Array2D<F>, B: array<F>, norm: nat)
    requires A.Valid() && norm < A.rows <= A.columns && A.rows <= B.Length
    modifies A, B
    ensures A.Valid()
    ensures System(A.Grid(), B[..]) == Round(ar, old(System(A.Grid(), B[..])), norm)
  {
    ghost var Sr := System(A.Grid(), B[..]);
    var N := A.ColumnsLen();
    for row := norm + 1 to N
      invariant A.Valid()
      invariant System(A.Grid(), B[..]) == EliminateRows(ar, Sr, norm, norm + 1, row)
    {
      GridRoundRow(ar, A, B, norm, row, Sr);
    }
  }

  /**
   * The body of the row loop of `gauss_solver_Array2D`: the multiplier
   * A[row][norm] / A[norm][norm], the column loop, then
   * B[row] -= B[norm] * multiplier, on the row after those round `norm`
   * has already reduced.
   */
  method GridRoundRow<F>(ar: Arith<F>, A: Array2D<F>, B: array<F>, norm: nat, row: nat, ghost Sr: System<F>)
    requires A.Valid() && norm < row < A.rows <= A.columns && A.rows <= B.Length
    requires Shaped(Sr) && |Sr.a| == A.rows
    requires System(A.Grid(), B[..]) == EliminateRows(ar, Sr, norm, norm + 1, row)
    modifies A, B
    ensures A.Valid()
    ensures System(A.Grid(), B[..]) == EliminateRows(ar, Sr, norm, norm + 1, row + 1)
  {
    ghost var Sc := System(A.Grid(), B[..]);
    RowInBounds(row, A.rows, A.columns);
    RowInBounds(norm, A.rows, A.columns);
    var multiplier := ar.div(A.Row(row)[norm], A.Row(norm)[norm]);
    ReduceGridRow(ar, A, norm, row, multiplier);
    B[row] := ar.sub(B[row], ar.mul(B[norm], multiplier));
    EliminateOneRow(ar, Sc, norm, row);
    EliminateRowsSplit(ar, Sr, norm, norm + 1, row, row + 1);
  }
}
