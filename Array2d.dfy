/**
 * `Array2D<T>`: a grid stored as one flat row-major vector, with checked and
 * unchecked cell writes, a checked read, row-slice and cell indexing, and two
 * row iterators. Two quirks of the original are kept as they are: the
 * accessor named for the row count returns the column count and vice versa,
 * and `get` computes its offset with the row count where `insert` uses the
 * column count.
 */
module Array2d {

  datatype Option<T> = None | Some(value: T)

  /** Why a call panics. A panic ends the program; a call that reports one has written nothing. */
  datatype Panic =
    | OutOfBounds(row: nat, column: nat, rows: nat, columns: nat)  // the explicit bounds check failed
    | IndexOutOfRange(index: nat, len: nat)                        // the vector index itself is out of range

  datatype Result<T> = Ok(value: T) | Err(panic: Panic)

  datatype Outcome = Done | Panicked(panic: Panic)

  lemma {:induction false} MulMono(a: nat, b: nat, c: nat)
    requires a <= b
    ensures a * c <= b * c
    decreases b - a
  {
    if a < b {
      MulMono(a, b - 1, c);
      assert b * c == (b - 1) * c + c;
    }
  }

  lemma MulStrict(a: nat, b: nat, c: nat)
    requires 0 < a && b < c
    ensures a * b < a * c
  {
    MulMono(b, c, a);
    assert a * c == a * b + a * (c - b);
    MulMono(1, c - b, a);
  }

  /** Row i of a rows-by-columns grid ends inside the vector. */
  lemma RowInBounds(i: nat, rows: nat, columns: nat)
    requires i < rows
    ensures (i + 1) * columns == i * columns + columns <= rows * columns
  {
    assert (i + 1) * columns == i * columns + columns;
    MulMono(i + 1, rows, columns);
  }

  /** A checked (row, column) pair has an offset row*columns+column inside the vector. */
  lemma CellInBounds(row: nat, column: nat, rows: nat, columns: nat)
    requires row < rows && column < columns
    ensures row * columns + column < rows * columns
  {
    RowInBounds(row, rows, columns);
  }

  /** Distinct rows never overlap: for i < j, row i ends at or before the start of row j. */
  lemma RowsDisjoint(i: nat, j: nat, columns: nat)
    requires i < j
    ensures (i + 1) * columns <= j * columns
  {
    MulMono(i + 1, j, columns);
  }

  /** The grid view of a flat row-major vector: row i is vec[i*columns .. (i+1)*columns]. */
  ghost function GridOf<T>(vec: seq<T>, rows: nat, columns: nat): (g: seq<seq<T>>)
    requires |vec| == rows * columns
    ensures |g| == rows
    ensures forall i :: 0 <= i < rows ==> |g[i]| == columns
  {
    var g := seq(rows, i requires 0 <= i < rows => RowInBounds(i, rows, columns); vec[i * columns .. i * columns + columns]);
    assert forall i :: 0 <= i < rows ==> |g[i]| == columns by {
      forall i | 0 <= i < rows
        ensures |g[i]| == columns
      {
        RowInBounds(i, rows, columns);
      }
    }
    g
  }

  /** Row i of the grid view is the slice of the vector that starts at i*columns. */
  lemma GridOfRow<T>(vec: seq<T>, rows: nat, columns: nat, i: nat)
    requires |vec| == rows * columns && i < rows
    ensures i * columns + columns <= |vec|
    ensures GridOf(vec, rows, columns)[i] == vec[i * columns .. i * columns + columns]
  {
    RowInBounds(i, rows, columns);
  }

  /**
   * Writing offset i*columns+j (j < columns) changes exactly element j of row i
   * of the grid and no other row.
   */
  lemma GridOfWrite<T>(vec: seq<T>, rows: nat, columns: nat, i: nat, j: nat, v: T)
    requires |vec| == rows * columns && i < rows && j < columns
    ensures i * columns + j < |vec|
    ensures GridOf(vec[i * columns + j := v], rows, columns) == GridOf(vec, rows, columns)[i := GridOf(vec, rows, columns)[i][j := v]]
  {
    CellInBounds(i, j, rows, columns);
    var k := i * columns + j;
    var w := vec[k := v];
    var g := GridOf(vec, rows, columns);
    var h := GridOf(w, rows, columns);
    forall r | 0 <= r < rows
      ensures h[r] == g[i := g[i][j := v]][r]
    {
      GridOfRow(vec, rows, columns, r);
      GridOfRow(w, rows, columns, r);
      var lo := r * columns;
      if r < i {
        RowsDisjoint(r, i, columns);
        assert lo + columns <= k;
        assert w[lo .. lo + columns] == vec[lo .. lo + columns];
      } else if i < r {
        RowsDisjoint(i, r, columns);
        assert k < lo;
        assert w[lo .. lo + columns] == vec[lo .. lo + columns];
      } else {
        assert k == lo + j;
        assert w[lo .. lo + columns] == vec[lo .. lo + columns][j := v];
      }
    }
  }

  class Array2D<T> {
    var vec: seq<T>
    const columns: nat
    const rows: nat

    /** The vector holds exactly rows*columns elements; nothing ever resizes it. */
    ghost predicate Valid()
      reads this
    {
      |vec| == rows * columns
    }

    /** The grid the vector stores, one row of `columns` elements per row. */
    ghost function Grid(): (g: seq<seq<T>>)
      reads this
      requires Valid()
      ensures |g| == rows
    {
      GridOf(vec, rows, columns)
    }

    /** `new(rows, columns)`: rows*columns copies of `default`, pushed one by one. */
    constructor (rows: nat, columns: nat, default: T)
      ensures Valid() && this.rows == rows && this.columns == columns
      ensures forall k :: 0 <= k < |vec| ==> vec[k] == default
    {
      this.vec := [];
      this.columns := columns;
      this.rows := rows;
      new;
      for i := 0 to columns * rows
        invariant |vec| == i
        invariant forall k :: 0 <= k < i ==> vec[k] == default
      {
        vec := vec + [default];
      }
    }

    predicate CheckValues(row: nat, column: nat) {
      row < rows && column < columns
    }

    /** The offset `get` reads: it multiplies by the row count, where every other accessor multiplies by the column count. */
    function GetIndex(row: nat, column: nat): nat {
      row * rows + column
    }

    /** The accessor named for the row count; it returns the column count. */
    function RowsLen(): nat {
      columns
    }

    /** The accessor named for the column count; it returns the row count. */
    function ColumnsLen(): nat {
      rows
    }

    /** `insert`: after the bounds check, writes offset row*columns+column and nothing else; panics otherwise. */
    method Insert(row: nat, column: nat, value: T) returns (outcome: Outcome)
      requires Valid()
      modifies this
      ensures Valid()
      ensures outcome.Done? <==> CheckValues(row, column)
      ensures outcome.Panicked? ==> outcome.panic == OutOfBounds(row, column, rows, columns) && vec == old(vec)
      ensures outcome.Done? ==> row * columns + column < |vec| && vec == old(vec)[row * columns + column := value]
      ensures outcome.Done? ==> Grid() == old(Grid())[row := old(Grid())[row][column := value]]
    {
      if CheckValues(row, column) {
        GridOfWrite(vec, rows, columns, row, column, value);
        var index := row * columns + column;
        vec := vec[index := value];
        outcome := Done;
      } else {
        outcome := Panicked(OutOfBounds(row, column, rows, columns));
      }
    }

    /** `insert_unchecked`: the same write as `insert` with no check of row and column; only the vector index is checked. */
    method InsertUnchecked(row: nat, column: nat, value: T)
      requires Valid() && row * columns + column < |vec|
      modifies this
      ensures Valid()
      ensures vec == old(vec)[row * columns + column := value]
    {
      var index := row * columns + column;
      vec := vec[index := value];
    }

    /**
     * `get`: the same bounds check as `insert`, then the element at offset
     * row*rows+column, which may lie outside the vector.
     */
    function Get(row: nat, column: nat): (r: Result<T>)
      reads this
      ensures r.Ok? <==> CheckValues(row, column) && GetIndex(row, column) < |vec|
      ensures !CheckValues(row, column) ==> r == Err(OutOfBounds(row, column, rows, columns))
      ensures r.Ok? ==> r.value == vec[GetIndex(row, column)]
    {
      if !CheckValues(row, column) then Err(OutOfBounds(row, column, rows, columns))
      else if GetIndex(row, column) < |vec| then Ok(vec[GetIndex(row, column)])
      else Err(IndexOutOfRange(GetIndex(row, column), |vec|))
    }

    /**
     * `get` as evidently intended: the offset of `insert`. It never panics on
     * a checked pair and returns the cell `insert` wrote, whatever the shape.
     */
    function GetCorrected(row: nat, column: nat): (r: Result<T>)
      reads this
      requires Valid()
      ensures r.Ok? <==> CheckValues(row, column)
      ensures r.Err? ==> r == Err(OutOfBounds(row, column, rows, columns))
      ensures r.Ok? ==> row * columns + column < |vec| && r.value == Cell(row, column) && r.value == Grid()[row][column]
    {
      if CheckValues(row, column) then
        CellInBounds(row, column, rows, columns);
        GridOfRow(vec, rows, columns, row);
        Ok(vec[row * columns + column])
      else Err(OutOfBounds(row, column, rows, columns))
    }

    /** Indexing by a row number: the slice vec[i*columns .. (i+1)*columns], row i of the grid. */
    function Row(i: nat): (r: seq<T>)
      reads this
      requires (i + 1) * columns <= |vec|
      ensures |r| == columns
      ensures Valid() && i < rows ==> r == Grid()[i]
    {
      assert (i + 1) * columns == i * columns + columns;
      vec[i * columns .. (i + 1) * columns]
    }

    /** Indexing by a (row, column) pair: offset row*columns+column, which is cell (row, column) of the grid when the pair is in range. */
    function Cell(row: nat, column: nat): (x: T)
      reads this
      requires row * columns + column < |vec|
      ensures Valid() && row < rows && column < columns ==> x == Grid()[row][column]
    {
      if |vec| == rows * columns && row < rows && column < columns then
        GridOfRow(vec, rows, columns, row);
        vec[row * columns + column]
      else vec[row * columns + column]
    }

    /** Mutable pair indexing: writes the one cell that pair indexing reads. */
    method SetCell(row: nat, column: nat, value: T)
      requires Valid() && row * columns + column < |vec|
      modifies this
      ensures Valid()
      ensures vec == old(vec)[row * columns + column := value]
      ensures Cell(row, column) == value
    {
      vec := vec[row * columns + column := value];
    }

    /**
     * Mutable row indexing followed by a write of element j of that row
     * (`a[i][j] = value`); for a valid array the slice exists exactly when
     * i < rows and the element exactly when j < columns.
     */
    method SetInRow(i: nat, j: nat, value: T)
      requires Valid() && i < rows && j < columns
      modifies this
      ensures Valid()
      ensures Grid() == old(Grid())[i := old(Grid())[i][j := value]]
    {
      GridOfWrite(vec, rows, columns, i, j, value);
      vec := vec[i * columns + j := value];
    }
  }

  /**
   * The two length accessors are swapped: `rows_len()` gives the number of
   * columns and `columns_len()` the number of rows, so each names its own
   * count exactly when the array is square.
   */
  lemma LengthAccessorsSwapped<T>(a: Array2D<T>)
    ensures a.RowsLen() == a.columns && a.ColumnsLen() == a.rows
    ensures a.RowsLen() == a.rows <==> a.rows == a.columns
    ensures a.ColumnsLen() == a.columns <==> a.rows == a.columns
  {
  }

  /** On a square array, `get` of a checked pair reads the cell that `insert` writes and pair indexing reads. */
  lemma GetOnSquare<T>(a: Array2D<T>, row: nat, column: nat)
    requires a.Valid() && a.rows == a.columns && a.CheckValues(row, column)
    ensures row * a.columns + column < |a.vec|
    ensures a.Get(row, column) == Ok(a.Cell(row, column))
  {
    CellInBounds(row, column, a.rows, a.columns);
  }

  /**
   * `get` and `insert` address the same offset for a checked pair exactly
   * when the pair is in row 0 or the array is square.
   */
  lemma GetIndexAgreesIff<T>(a: Array2D<T>, row: nat, column: nat)
    requires a.CheckValues(row, column)
    ensures a.GetIndex(row, column) == row * a.columns + column <==> row == 0 || a.rows == a.columns
  {
    if row != 0 && a.rows != a.columns {
      if a.rows < a.columns {
        MulStrict(row, a.rows, a.columns);
      } else {
        MulStrict(row, a.columns, a.rows);
      }
    }
  }

  /**
   * On a 2-by-3 array, `get(1, 0)` passes the bounds check and reads offset 2,
   * the last cell of row 0, while `insert(1, 0, _)` writes offset 3.
   */
  lemma GetMissesInsertedCell<T>(a: Array2D<T>)
    requires a.Valid() && a.rows == 2 && a.columns == 3
    ensures a.CheckValues(1, 0) && a.Get(1, 0) == Ok(a.vec[2]) && a.Cell(1, 0) == a.vec[3]
  {
  }

  /** On a 3-by-2 array, `get(2, 1)` passes the bounds check and still panics: offset 7 is past the six elements. */
  lemma GetPanicsInBounds<T>(a: Array2D<T>)
    requires a.Valid() && a.rows == 3 && a.columns == 2
    ensures a.CheckValues(2, 1) && a.Get(2, 1) == Err(IndexOutOfRange(7, 6))
  {
  }

  /** The iterator over a borrowed `Array2D`: yields row slices 0, 1, ... while the index is below `RowsLen()`. */
  class Array2DIterator<T> {
    const arr: Array2D<T>
    var index: nat

    /** `into_iter` of `&Array2D`. On a valid array it will yield the first RowsLen() rows of the grid. */
    constructor (a: Array2D<T>)
      ensures this.arr == a && index == 0
      ensures arr.Valid() && arr.columns <= arr.rows ==> Remaining() == arr.Grid()[..arr.RowsLen()]
    {
      this.arr := a;
      index := 0;
    }

    /** The rows still to come: rows index .. RowsLen()-1 of the grid (none once the index has passed them). */
    ghost function Remaining(): seq<seq<T>>
      reads this, arr
      requires arr.Valid() && arr.columns <= arr.rows
    {
      if index < arr.RowsLen() then arr.Grid()[index..arr.RowsLen()] else []
    }

    /**
     * `next`: the row at the index if the index is below `RowsLen()`, `None`
     * otherwise; the index grows on every call that returns. `RowsLen()` is
     * the column count, so with more columns than rows the slice for index
     * `rows` runs past the vector and the call panics.
     */
    method Next() returns (item: Result<Option<seq<T>>>)
      requires arr.Valid()
      modifies this
      ensures item.Err? <==> old(index) < arr.RowsLen() && |arr.vec| < (old(index) + 1) * arr.columns
      ensures item.Err? ==> item.panic == IndexOutOfRange((old(index) + 1) * arr.columns, |arr.vec|) && index == old(index)
      ensures item.Ok? ==> index == old(index) + 1
      ensures item == Ok(None) <==> arr.RowsLen() <= old(index)
      ensures item.Ok? && item.value.Some? ==> item.value.value == arr.Row(old(index))
      ensures arr.columns <= arr.rows ==>
                item.Ok? && old(Remaining()) == if item.value.Some? then [item.value.value] + Remaining() else []
    {
      if index >= arr.RowsLen() {
        item := Ok(None);
      } else if (index + 1) * arr.columns <= |arr.vec| {
        item := Ok(Some(arr.Row(index)));
      } else {
        if arr.columns <= arr.rows {
          RowInBounds(index, arr.rows, arr.columns);
        }
        return Err(IndexOutOfRange((index + 1) * arr.columns, |arr.vec|));
      }
      index := index + 1;
    }
  }

  /** The iterator that takes an `Array2D` by value: yields copies of rows 0, 1, ... while the index is below `RowsLen()`. */
  class Array2DIntoIterator<T> {
    const arr: Array2D<T>
    var index: nat

    /** `into_iter` of `Array2D`. On a valid array it will yield the first RowsLen() rows of the grid. */
    constructor (a: Array2D<T>)
      ensures this.arr == a && index == 0
      ensures arr.Valid() && arr.columns <= arr.rows ==> Remaining() == arr.Grid()[..arr.RowsLen()]
    {
      this.arr := a;
      index := 0;
    }

    /** The rows still to come: rows index .. RowsLen()-1 of the grid (none once the index has passed them). */
    ghost function Remaining(): seq<seq<T>>
      reads this, arr
      requires arr.Valid() && arr.columns <= arr.rows
    {
      if index < arr.RowsLen() then arr.Grid()[index..arr.RowsLen()] else []
    }

    /**
     * `next`: a copy of the row at the index if the index is below
     * `RowsLen()`, `None` otherwise; the index grows on every call that
     * returns. With more columns than rows it panics as the borrowing
     * iterator does.
     */
    method Next() returns (item: Result<Option<seq<T>>>)
      requires arr.Valid()
      modifies this
      ensures item.Err? <==> old(index) < arr.RowsLen() && |arr.vec| < (old(index) + 1) * arr.columns
      ensures item.Err? ==> item.panic == IndexOutOfRange((old(index) + 1) * arr.columns, |arr.vec|) && index == old(index)
      ensures item.Ok? ==> index == old(index) + 1
      ensures item == Ok(None) <==> arr.RowsLen() <= old(index)
      ensures item.Ok? && item.value.Some? ==> item.value.value == arr.Row(old(index))
      ensures arr.columns <= arr.rows ==>
                item.Ok? && old(Remaining()) == if item.value.Some? then [item.value.value] + Remaining() else []
    {
      if index >= arr.RowsLen() {
        item := Ok(None);
      } else if (index + 1) * arr.columns <= |arr.vec| {
        item := Ok(Some(arr.Row(index)));
      } else {
        if arr.columns <= arr.rows {
          RowInBounds(index, arr.rows, arr.columns);
        }
        return Err(IndexOutOfRange((index + 1) * arr.columns, |arr.vec|));
      }
      index := index + 1;
    }
  }
}
