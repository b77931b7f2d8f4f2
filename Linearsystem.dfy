/**
 * `LinearSystem`: a coefficient array A, the unknowns X and the constants B,
 * solved in place by Gaussian elimination without pivoting. The array is an
 * `Array2D` object the system owns; X and B are vectors the solver rewrites.
 */
module Linearsystem {
  import opened Elimination
  import opened Array2d
  import Solvers

  class LinearSystem<F> {
    /** The coefficients. */
    const A: Array2D<F>
    /** The unknowns. */
    var X: seq<F>
    /** The constants. */
    var B: seq<F>

    /** `new`: keeps A and B as given and makes X a vector of columns_len() zeros (the row count). */
    constructor (ar: Arith<F>, A: Array2D<F>, B: seq<F>)
      ensures this.A == A && this.B == B
      ensures |X| == A.rows && forall k :: 0 <= k < |X| ==> X[k] == ar.zero
    {
      this.A := A;
      this.B := B;
      X := seq(A.ColumnsLen(), _ => ar.zero);
    }

    /**
     * `solve_with_gauss`: with N = columns_len() (the row count), rounds
     * norm = 0 .. N-2 of forward elimination over the columns norm .. N-1,
     * then back substitution into X. `0..(N-1)` on usize needs N >= 1, and
     * row indexing needs N <= the column count. A and B end as the forward
     * phase leaves them and X[..N] holds the back-substituted values.
     */
    method SolveWithGauss(ar: Arith<F>)
      requires A.Valid() && 1 <= A.rows <= A.columns && A.rows <= |B| && A.rows <= |X|
      modifies this, A
      ensures A.Valid() && |X| == old(|X|)
      ensures System(A.Grid(), B) == Eliminated(ar, old(System(A.Grid(), B)))
      ensures X[..A.rows] == Substituted(ar, System(A.Grid(), B), 0)
      ensures X[A.rows..] == old(X[A.rows..])
    {
      ghost var S0 := System(A.Grid(), B);
      var N := A.ColumnsLen();
      for norm := 0 to N - 1
        invariant A.Valid()
        invariant System(A.Grid(), B) == Forward(ar, S0, norm)
        invariant X == old(X)
      {
        ForwardRound(ar, norm);
      }
      BackSubstitute(ar);
    }

    /** One pass of the outer forward loop of `solve_with_gauss`: the rows norm+1 .. N-1 in ascending order. */
    method ForwardRound(ar: Arith<F>, norm: nat)
      requires A.Valid() && norm < A.rows <= A.columns && A.rows <= |B|
      modifies this, A
      ensures A.Valid() && X == old(X)
      ensures System(A.Grid(), B) == Round(ar, old(System(A.Grid(), B)), norm)
    {
      ghost var Sr := System(A.Grid(), B);
      var N := A.ColumnsLen();
      for row := norm + 1 to N
        invariant A.Valid() && X == old(X)
        invariant System(A.Grid(), B) == EliminateRows(ar, Sr, norm, norm + 1, row)
      {
        ForwardRow(ar, norm, row, Sr);
      }
    }

    /** The body of the row loop of `solve_with_gauss`, on the row after those round `norm` has already reduced. */
    method ForwardRow(ar: Arith<F>, norm: nat, row: nat, ghost Sr: System<F>)
      requires A.Valid() && norm < row < A.rows <= A.columns && A.rows <= |B|
      requires Shaped(Sr) && |Sr.a| == A.rows
      requires System(A.Grid(), B) == EliminateRows(ar, Sr, norm, norm + 1, row)
      modifies this, A
      ensures A.Valid() && X == old(X)
      ensures System(A.Grid(), B) == EliminateRows(ar, Sr, norm, norm + 1, row + 1)
    {
      ghost var Sc := System(A.Grid(), B);
      RowInBounds(row, A.rows, A.columns);
      RowInBounds(norm, A.rows, A.columns);
      var multiplier := ar.div(A.Row(row)[norm], A.Row(norm)[norm]);
      Solvers.ReduceGridRow(ar, A, norm, row, multiplier);
      B := B[row := ar.sub(B[row], ar.mul(B[norm], multiplier))];
      EliminateOneRow(ar, Sc, norm, row);
      EliminateRowsSplit(ar, Sr, norm, norm + 1, row, row + 1);
    }

    /**
     * The back-substitution loop of `solve_with_gauss`: for row = N-1 down
     * to 0, X[row] = (B[row] - A[row][col] * X[col] for col = N-1 down to
     * row+1) / A[row][row]. A and B are only read.
     */
    method BackSubstitute(ar: Arith<F>)
      requires A.Valid() && A.rows <= A.columns && A.rows <= |B| && A.rows <= |X|
      modifies this
      ensures B == old(B) && |X| == old(|X|)
      ensures X[..A.rows] == Substituted(ar, System(A.Grid(), B), 0)
      ensures X[A.rows..] == old(X[A.rows..])
    {
      var N := A.ColumnsLen();
      var row: nat := N;
      while row > 0
        invariant row <= N && B == old(B) && |X| == old(|X|)
        invariant X[row..N] == Substituted(ar, System(A.Grid(), B), row)
        invariant X[N..] == old(X[N..])
      {
        row := row - 1;
        SubstituteRow(ar, row);
      }
      assert X[..N] == X[row..N];
    }

    /** One pass of the back-substitution loop, when X[row+1..N] already holds its final values. */
    method SubstituteRow(ar: Arith<F>, row: nat)
      requires A.Valid() && row < A.rows <= A.columns && A.rows <= |B| && A.rows <= |X|
      requires X[row + 1..A.rows] == Substituted(ar, System(A.Grid(), B), row + 1)
      modifies this
      ensures B == old(B) && |X| == old(|X|)
      ensures X[row..A.rows] == Substituted(ar, System(A.Grid(), B), row)
      ensures X[A.rows..] == old(X[A.rows..])
    {
      var N := A.ColumnsLen();
      RowInBounds(row, A.rows, A.columns);
      X := X[row := B[row]];
      SubtractKnown(ar, row);
      X := X[row := ar.div(X[row], A.Row(row)[row])];
      assert X[row..N] == [X[row]] + X[row + 1..N];
    }

    /**
     * The column loop of one back-substitution pass: X[row] -= A[row][col] * X[col]
     * for col = N-1 down to row+1; no other unknown changes.
     */
    method SubtractKnown(ar: Arith<F>, row: nat)
      requires A.Valid() && row < A.rows <= A.columns && A.rows <= |X|
      modifies this
      ensures B == old(B)
      ensures X == old(X)[row := Reduced(ar, A.Grid()[row], old(X)[row], old(X)[row + 1..A.rows], row, row + 1, A.rows)]
    {
      var N := A.ColumnsLen();
      RowInBounds(row, A.rows, A.columns);
      ghost var X0 := X;
      var col := N;
      while col > row + 1
        invariant row + 1 <= col <= N && B == old(B)
        invariant X == X0[row := Reduced(ar, A.Grid()[row], X0[row], X0[row + 1..N], row, col, N)]
      {
        col := col - 1;
        assert X[col] == X0[row + 1..N][col - row - 1];
        X := X[row := ar.sub(X[row], ar.mul(A.Row(row)[col], X[col]))];
      }
    }
  }
}
