/**
 * The value-level specification shared by every elimination kernel: what one
 * round of forward elimination does to the coefficient rows A and the
 * constants B, what the whole forward phase does, and what back substitution
 * computes. Matrix entries have an abstract type F; the kernels use only its
 * `-`, `*` and `/` (f64 in the program), which are left uninterpreted, so
 * every property here holds whatever those operations compute, IEEE
 * infinities and NaNs included.
 */
module Elimination {

  /** The element operations the kernels use: the literal 0.0, `-`, `*` and `/`. */
  datatype Arith<!F> = Arith(zero: F, sub: (F, F) -> F, mul: (F, F) -> F, div: (F, F) -> F)

  /** Multiplication commutes, as it does for f64. */
  ghost predicate Commutes<F(!new)>(ar: Arith<F>) {
    forall x: F, y: F :: ar.mul(x, y) == ar.mul(y, x)
  }

  /**
   * The same operations with the factors of every product swapped.
   * `row_solver` and `rows_solver` multiply as multiplier * base, where the
   * other kernels multiply as base * multiplier.
   */
  function Flipped<F>(ar: Arith<F>): Arith<F> {
    Arith(ar.zero, ar.sub, (x, y) => ar.mul(y, x), ar.div)
  }

  /** The two inputs a solve rewrites in place: the coefficient rows and the constants. */
  datatype System<F> = System(a: seq<seq<F>>, b: seq<F>)

  /** The shape every kernel needs: with N = |a|, every row is at least N long and B holds at least N constants. */
  ghost predicate Shaped<F>(s: System<F>) {
    |s.b| >= |s.a| && forall i :: 0 <= i < |s.a| ==> |s.a[i]| >= |s.a|
  }

  /** A square coefficient matrix: every row is exactly N long. */
  ghost predicate Square<F>(s: System<F>) {
    |s.b| >= |s.a| && forall i :: 0 <= i < |s.a| ==> |s.a[i]| == |s.a|
  }

  /** The multiplier of `row` against the pivot row `base` in round `norm`: row[norm] / base[norm]. */
  function Multiplier<F>(ar: Arith<F>, row: seq<F>, base: seq<F>, norm: nat): F
    requires norm < |row| && norm < |base|
  {
    ar.div(row[norm], base[norm])
  }

  /** `row` after `base[c] * m` is subtracted from each of its columns c = norm .. upto-1. */
  function UpdateRow<F>(ar: Arith<F>, row: seq<F>, base: seq<F>, norm: nat, upto: nat, m: F): (r: seq<F>)
    requires upto <= |row| && upto <= |base|
    ensures |r| == |row|
  {
    seq(|row|, c requires 0 <= c < |row| => if norm <= c < upto then ar.sub(row[c], ar.mul(base[c], m)) else row[c])
  }

  /**
   * The column loop writes only the columns norm .. upto-1: the prefix before
   * `norm` and the suffix from `upto` keep their values, and each written
   * column loses base[c] * m from its own old value.
   */
  lemma UpdateRowFrame<F>(ar: Arith<F>, row: seq<F>, base: seq<F>, norm: nat, upto: nat, m: F)
    requires norm <= upto <= |row| && upto <= |base|
    ensures var r := UpdateRow(ar, row, base, norm, upto, m);
      && r[..norm] == row[..norm] && r[upto..] == row[upto..]
      && forall c :: norm <= c < upto ==> r[c] == ar.sub(row[c], ar.mul(base[c], m))
  {
    var r := UpdateRow(ar, row, base, norm, upto, m);
    assert forall c :: 0 <= c < norm ==> r[..norm][c] == row[..norm][c];
    assert forall c :: 0 <= c < |row| - upto ==> r[upto..][c] == row[upto..][c];
  }

  /** With no column to update the row is unchanged. */
  lemma UpdateRowNone<F>(ar: Arith<F>, row: seq<F>, base: seq<F>, norm: nat, m: F)
    requires norm <= |row| && norm <= |base|
    ensures UpdateRow(ar, row, base, norm, norm, m) == row
  {
  }

  /** Extending the updated columns by column c is one write to column c. */
  lemma UpdateRowStep<F>(ar: Arith<F>, row: seq<F>, base: seq<F>, norm: nat, c: nat, m: F)
    requires norm <= c < |row| && c < |base|
    ensures UpdateRow(ar, row, base, norm, c + 1, m) == UpdateRow(ar, row, base, norm, c, m)[c := ar.sub(row[c], ar.mul(base[c], m))]
  {
    var u := UpdateRow(ar, row, base, norm, c + 1, m);
    var v := UpdateRow(ar, row, base, norm, c, m)[c := ar.sub(row[c], ar.mul(base[c], m))];
    assert forall k :: 0 <= k < |u| ==> u[k] == v[k];
  }

  /** Round `norm` restricted to the rows lo .. hi-1, which all lie below the pivot row. */
  function EliminateRows<F>(ar: Arith<F>, s: System<F>, norm: nat, lo: nat, hi: nat): (r: System<F>)
    requires Shaped(s) && norm < lo <= hi <= |s.a|
    ensures |r.a| == |s.a| && |r.b| == |s.b|
    ensures forall i :: 0 <= i < |s.a| && !(lo <= i < hi) ==> r.a[i] == s.a[i]
    ensures forall i :: 0 <= i < |s.b| && !(lo <= i < hi) ==> r.b[i] == s.b[i]
    ensures forall i :: 0 <= i < |s.a| ==> |r.a[i]| == |s.a[i]|
    ensures Shaped(r)
  {
    System(seq(|s.a|, i requires 0 <= i < |s.a| => RowAfter(ar, s, norm, lo, hi, i)),
           seq(|s.b|, i requires 0 <= i < |s.b| => ConstantAfter(ar, s, norm, lo, hi, i)))
  }

  /** Row i of A after round `norm` on the rows lo .. hi-1. */
  function RowAfter<F>(ar: Arith<F>, s: System<F>, norm: nat, lo: nat, hi: nat, i: nat): (r: seq<F>)
    requires Shaped(s) && norm < lo <= hi <= |s.a| && i < |s.a|
    ensures |r| == |s.a[i]|
  {
    if lo <= i < hi then UpdateRow(ar, s.a[i], s.a[norm], norm, |s.a|, Multiplier(ar, s.a[i], s.a[norm], norm)) else s.a[i]
  }

  /** B[i] after round `norm` on the rows lo .. hi-1. */
  function ConstantAfter<F>(ar: Arith<F>, s: System<F>, norm: nat, lo: nat, hi: nat, i: nat): F
    requires Shaped(s) && norm < lo <= hi <= |s.a| && i < |s.b|
  {
    if lo <= i < hi then ar.sub(s.b[i], ar.mul(s.b[norm], Multiplier(ar, s.a[i], s.a[norm], norm))) else s.b[i]
  }

  /**
   * What round `norm` does to one row i in lo .. hi-1: columns left of the
   * pivot and right of N-1 keep their values; every column norm .. N-1 and
   * B[i] are reduced with one multiplier, taken from the row's pivot-column
   * entry as it was before the round.
   */
  lemma EliminatedRow<F>(ar: Arith<F>, s: System<F>, norm: nat, lo: nat, hi: nat, i: nat)
    requires Shaped(s) && norm < lo <= i < hi <= |s.a|
    ensures var r := EliminateRows(ar, s, norm, lo, hi);
      var m := ar.div(s.a[i][norm], s.a[norm][norm]);
      && (forall c :: 0 <= c < |s.a[i]| && (c < norm || |s.a| <= c) ==> r.a[i][c] == s.a[i][c])
      && (forall c :: norm <= c < |s.a| ==> r.a[i][c] == ar.sub(s.a[i][c], ar.mul(s.a[norm][c], m)))
      && r.b[i] == ar.sub(s.b[i], ar.mul(s.b[norm], m))
  {
  }

  /** Round `norm` on the single row i replaces row i and B[i] and nothing else. */
  lemma EliminateOneRow<F>(ar: Arith<F>, s: System<F>, norm: nat, i: nat)
    requires Shaped(s) && norm < i < |s.a|
    ensures var m := Multiplier(ar, s.a[i], s.a[norm], norm);
      EliminateRows(ar, s, norm, i, i + 1) ==
      System(s.a[i := UpdateRow(ar, s.a[i], s.a[norm], norm, |s.a|, m)], s.b[i := ar.sub(s.b[i], ar.mul(s.b[norm], m))])
  {
    var m := Multiplier(ar, s.a[i], s.a[norm], norm);
    var r := EliminateRows(ar, s, norm, i, i + 1);
    assert r.a == s.a[i := r.a[i]];
    assert r.b == s.b[i := r.b[i]];
  }

  /** One full round: every row below the pivot row `norm`. */
  function Round<F>(ar: Arith<F>, s: System<F>, norm: nat): System<F>
    requires Shaped(s) && norm < |s.a|
  {
    EliminateRows(ar, s, norm, norm + 1, |s.a|)
  }

  /** The forward phase after its first k rounds, norm = 0 .. k-1. */
  function Forward<F>(ar: Arith<F>, s: System<F>, k: nat): (r: System<F>)
    requires Shaped(s) && k <= |s.a|
    ensures Shaped(r) && |r.a| == |s.a| && |r.b| == |s.b|
    ensures forall i :: 0 <= i < |s.a| ==> |r.a[i]| == |s.a[i]|
    ensures 0 < |s.a| ==> r.a[0] == s.a[0] && r.b[0] == s.b[0]
    decreases k
  {
    if k == 0 then s else Round(ar, Forward(ar, s, k - 1), k - 1)
  }

  /** The whole forward phase of `for norm in 0..(N-1)`. */
  function Eliminated<F>(ar: Arith<F>, s: System<F>): System<F>
    requires Shaped(s)
  {
    if |s.a| == 0 then s else Forward(ar, s, |s.a| - 1)
  }

  /** The forward phase keeps every row's length, so a square matrix stays square. */
  lemma ForwardKeepsSquare<F>(ar: Arith<F>, s: System<F>, k: nat)
    requires Square(s) && k <= |s.a|
    ensures Square(Forward(ar, s, k))
  {
  }

  /** Splitting the rows of a round at `mid` and doing the two parts one after the other is the same as doing them at once. */
  lemma EliminateRowsSplit<F>(ar: Arith<F>, s: System<F>, norm: nat, lo: nat, mid: nat, hi: nat)
    requires Shaped(s) && norm < lo <= mid <= hi <= |s.a|
    ensures EliminateRows(ar, EliminateRows(ar, s, norm, lo, mid), norm, mid, hi) == EliminateRows(ar, s, norm, lo, hi)
  {
    var t := EliminateRows(ar, s, norm, lo, mid);
    var u := EliminateRows(ar, t, norm, mid, hi);
    var w := EliminateRows(ar, s, norm, lo, hi);
    assert t.a[norm] == s.a[norm] && t.b[norm] == s.b[norm];
    assert forall i :: 0 <= i < |s.a| ==> u.a[i] == w.a[i];
    assert forall i :: 0 <= i < |s.b| ==> u.b[i] == w.b[i];
  }

  /** When multiplication commutes, a round computed with swapped products is the same round. */
  lemma FlippedRoundAgrees<F(!new)>(ar: Arith<F>, s: System<F>, norm: nat, lo: nat, hi: nat)
    requires Commutes(ar) && Shaped(s) && norm < lo <= hi <= |s.a|
    ensures EliminateRows(Flipped(ar), s, norm, lo, hi) == EliminateRows(ar, s, norm, lo, hi)
  {
    var u := EliminateRows(Flipped(ar), s, norm, lo, hi);
    var w := EliminateRows(ar, s, norm, lo, hi);
    forall i | 0 <= i < |s.a|
      ensures u.a[i] == w.a[i]
    {
      if lo <= i < hi {
        var m := Multiplier(ar, s.a[i], s.a[norm], norm);
        assert forall c :: 0 <= c < |s.a[i]| ==> u.a[i][c] == w.a[i][c];
      }
    }
    assert u.a == w.a;
    assert u.b == w.b;
  }

  /** The last round, norm = N-1, has no row below its pivot and changes nothing. */
  lemma LastRoundIsEmpty<F>(ar: Arith<F>, s: System<F>)
    requires Shaped(s) && 0 < |s.a|
    ensures Round(ar, s, |s.a| - 1) == s
  {
    var r := Round(ar, s, |s.a| - 1);
    assert r.a == s.a;
    assert r.b == s.b;
  }

  /** Running every round 0 .. N-1 (as the thread and pool variants do) gives the forward phase. */
  lemma AllRoundsAreEliminated<F>(ar: Arith<F>, s: System<F>)
    requires Shaped(s)
    ensures Forward(ar, s, |s.a|) == Eliminated(ar, s)
  {
    if 0 < |s.a| {
      LastRoundIsEmpty(ar, Forward(ar, s, |s.a| - 1));
    }
  }

  /** A round leaves the pivot row and the rows above it, and their constants, as they were. */
  lemma RoundKeepsUpperRows<F>(ar: Arith<F>, p: System<F>, norm: nat, i: nat)
    requires Shaped(p) && i <= norm < |p.a|
    ensures Round(ar, p, norm).a[i] == p.a[i] && Round(ar, p, norm).b[i] == p.b[i]
  {
  }

  /** Round k-1 leaves rows 0 .. k-1 as round k-2 left them. */
  lemma ForwardKeepsUpperRows<F>(ar: Arith<F>, s: System<F>, k: nat, i: nat)
    requires Shaped(s) && i < k <= |s.a|
    ensures Forward(ar, s, k).a[i] == Forward(ar, s, k - 1).a[i]
  {
  }

  /** And B[0] .. B[k-1]. */
  lemma ForwardKeepsUpperConstants<F>(ar: Arith<F>, s: System<F>, k: nat, i: nat)
    requires Shaped(s) && i < k <= |s.a|
    ensures Forward(ar, s, k).b[i] == Forward(ar, s, k - 1).b[i]
  {
  }

  /** Round k-1 leaves the columns left of its pivot as round k-2 left them. */
  lemma ForwardKeepsLeftColumns<F>(ar: Arith<F>, s: System<F>, k: nat, i: nat, c: nat)
    requires Shaped(s) && c + 1 < k <= |s.a| && i < |s.a| && c < |s.a[i]|
    ensures Forward(ar, s, k).a[i][c] == Forward(ar, s, k - 1).a[i][c]
  {
    var p := Forward(ar, s, k - 1);
    if k - 1 < i {
      EliminatedRow(ar, p, k - 1, k, |p.a|, i);
    }
  }

  /** Rows 0 .. j-1 of A are final after round j-1: later rounds write only rows below their pivot. */
  lemma RoundsSettleRows<F>(ar: Arith<F>, s: System<F>, j: nat, k: nat, i: nat)
    requires Shaped(s) && i < j <= k <= |s.a|
    ensures Forward(ar, s, k).a[i] == Forward(ar, s, j).a[i]
  {
    var m := j;
    while m < k
      invariant j <= m <= k
      invariant Forward(ar, s, m).a[i] == Forward(ar, s, j).a[i]
    {
      m := m + 1;
      ForwardKeepsUpperRows(ar, s, m, i);
    }
  }

  /** So are B[0] .. B[j-1]. */
  lemma RoundsSettleConstants<F>(ar: Arith<F>, s: System<F>, j: nat, k: nat, i: nat)
    requires Shaped(s) && i < j <= k <= |s.a|
    ensures Forward(ar, s, k).b[i] == Forward(ar, s, j).b[i]
  {
    var m := j;
    while m < k
      invariant j <= m <= k
      invariant Forward(ar, s, m).b[i] == Forward(ar, s, j).b[i]
    {
      m := m + 1;
      ForwardKeepsUpperConstants(ar, s, m, i);
    }
  }

  /** Column c is final after round c: later rounds write only columns at or right of their pivot. */
  lemma RoundsSettleColumns<F>(ar: Arith<F>, s: System<F>, j: nat, k: nat, i: nat, c: nat)
    requires Shaped(s) && c < j <= k <= |s.a| && i < |s.a| && c < |s.a[i]|
    ensures Forward(ar, s, k).a[i][c] == Forward(ar, s, j).a[i][c]
  {
    var m := j;
    while m < k
      invariant j <= m <= k
      invariant Forward(ar, s, m).a[i][c] == Forward(ar, s, j).a[i][c]
    {
      m := m + 1;
      ForwardKeepsLeftColumns(ar, s, m, i, c);
    }
  }

  /**
   * Back substitution for row k, mid-way: b minus row[col] * x[col] for
   * col = n-1 down to j, subtracted in that order, where xs holds the final
   * x[k+1 .. n-1].
   */
  function Reduced<F>(ar: Arith<F>, row: seq<F>, bv: F, xs: seq<F>, k: nat, j: nat, n: nat): F
    requires k < j <= n <= |row| && |xs| == n - k - 1
    decreases n - j
  {
    if j == n then bv else ar.sub(Reduced(ar, row, bv, xs, k, j + 1, n), ar.mul(row[j], xs[j - k - 1]))
  }

  /** The final x[k .. N-1] of back substitution, computed from the highest index down. */
  function Substituted<F>(ar: Arith<F>, s: System<F>, k: nat): (x: seq<F>)
    requires Shaped(s) && k <= |s.a|
    ensures |x| == |s.a| - k
    decreases |s.a| - k
  {
    if k == |s.a| then []
    else
      var rest := Substituted(ar, s, k + 1);
      [ar.div(Reduced(ar, s.a[k], s.b[k], rest, k, k + 1, |s.a|), s.a[k][k])] + rest
  }

  /** The partial sum of row k reads only columns j .. n-1 of that row. */
  lemma {:induction false} ReducedReadsRight<F>(ar: Arith<F>, row: seq<F>, row': seq<F>, bv: F, xs: seq<F>, k: nat, j: nat, n: nat)
    requires k < j <= n <= |row| && n <= |row'| && |xs| == n - k - 1
    requires row[j..n] == row'[j..n]
    ensures Reduced(ar, row, bv, xs, k, j, n) == Reduced(ar, row', bv, xs, k, j, n)
    decreases n - j
  {
    if j < n {
      assert row[j] == row[j..n][0] == row'[j..n][0] == row'[j];
      assert row[j + 1..n] == row[j..n][1..];
      assert row'[j + 1..n] == row'[j..n][1..];
      ReducedReadsRight(ar, row, row', bv, xs, k, j + 1, n);
    }
  }

  /**
   * Back substitution never reads below the diagonal: x[k..] depends only on
   * the entries A[i][i..N-1] and B[i] of the rows i >= k.
   */
  lemma {:induction false} SubstitutedReadsUpperTriangle<F>(ar: Arith<F>, s: System<F>, t: System<F>, k: nat)
    requires Shaped(s) && Shaped(t) && |s.a| == |t.a| && k <= |s.a|
    requires forall i :: k <= i < |s.a| ==> s.a[i][i..|s.a|] == t.a[i][i..|s.a|] && s.b[i] == t.b[i]
    ensures Substituted(ar, s, k) == Substituted(ar, t, k)
    decreases |s.a| - k
  {
    var n := |s.a|;
    if k < n {
      SubstitutedReadsUpperTriangle(ar, s, t, k + 1);
      var rest := Substituted(ar, s, k + 1);
      assert s.a[k][k + 1..n] == s.a[k][k..n][1..];
      assert t.a[k][k + 1..n] == t.a[k][k..n][1..];
      ReducedReadsRight(ar, s.a[k], t.a[k], s.b[k], rest, k, k + 1, n);
      assert s.a[k][k] == s.a[k][k..n][0] == t.a[k][k..n][0] == t.a[k][k];
    }
  }
}
