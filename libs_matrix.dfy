/** The older matrix class of libs/matrix.py.

    It keeps the same row-major flat list as the newer class, adopts the caller's
    list in `set_all`, and writes `set` in place, so the list is an array the object
    points to. Its `set` checks the indices against `range(0, n + 1)` instead of
    `range(0, n)`: `SetCellAsWritten` models that check and the lemmas after it show
    what it lets through; the class's `Set` is the evidently intended check. */
module LegacyMatrices {
  import opened Errors
  import opened MatrixSpec
  import Matrices

  /** The right-hand operand of `+` and `-`: another matrix of this class, an int or
      float, or any other Python object. */
  datatype Operand = MatrixOperand(m: Matrix) | NumberOperand(c: real) | OtherOperand

  // ---------------------------------------------------------------------------
  // `set` as written

  /** `set(i, j, v)` as written: IndexOutOfBounds unless 0 <= i <= rows and
      0 <= j <= cols, then the list assignment at i * cols + j, which raises
      Python's IndexError when that position is past the end of the list. */
  function SetCellAsWritten(m: Mat, i: int, j: int, v: real): (r: Result<Mat>)
    requires m.Valid()
    ensures r.Ok? ==> r.value.Valid() && r.value.rows == m.rows && r.value.cols == m.cols
  {
    if !(0 <= i <= m.rows) || !(0 <= j <= m.cols) then Err(IndexOutOfBounds)
    else if i * m.cols + j >= |m.data| then Err(ListIndexError)
    else Ok(Mat(m.rows, m.cols, m.data[i * m.cols + j := v]))
  }

  /** On a cell inside the matrix the as-written `set` does what `set` promises. */
  lemma SetCellAsWrittenInRange(m: Mat, i: int, j: int, v: real)
    requires m.Valid() && 0 <= i < m.rows && 0 <= j < m.cols
    ensures SetCellAsWritten(m, i, j, v) == Ok(With(m, i, j, v))
  {
    CellBound(m.rows, m.cols, i, j);
  }

  /** Exactly the writes the as-written `set` accepts: every cell of the matrix, and
      additionally column index `cols` on every row but the last. */
  lemma SetCellAsWrittenAccepts(m: Mat, i: int, j: int, v: real)
    requires m.Valid()
    ensures SetCellAsWritten(m, i, j, v).Ok? <==>
      (0 <= i < m.rows && 0 <= j < m.cols) || (0 <= i && i + 1 < m.rows && 0 < m.cols && j == m.cols)
  {
    if 0 <= i <= m.rows && 0 <= j <= m.cols {
      if i < m.rows && j < m.cols {
        CellBound(m.rows, m.cols, i, j);
      } else if j == m.cols {
        assert i * m.cols + j == (i + 1) * m.cols;
        if i + 1 < m.rows {
          MulMono(i + 2, m.rows, m.cols);
        } else {
          MulMono(m.rows, i + 1, m.cols);
        }
      } else {
        assert i == m.rows;
        MulMono(m.rows, i, m.cols);
      }
    }
  }

  /** Out-of-range indices that get past the check raise Python's IndexError: the
      row index `rows`, and column index `cols` on the last row. */
  lemma SetCellAsWrittenPastEnd(m: Mat, i: int, j: int, v: real)
    requires m.Valid() && 0 <= i <= m.rows && 0 <= j <= m.cols
    requires i == m.rows || (i + 1 == m.rows && j == m.cols)
    ensures SetCellAsWritten(m, i, j, v) == Err(ListIndexError)
  {
    SetCellAsWrittenAccepts(m, i, j, v);
  }

  /** The discrepancy: `set(i, cols, v)` on any row but the last succeeds and writes
      cell (i + 1, 0), the first cell of the next row. */
  lemma SetCellAsWrittenWraps(m: Mat, i: int, v: real)
    requires m.Valid() && 0 <= i && i + 1 < m.rows && 0 < m.cols
    ensures SetCellAsWritten(m, i, m.cols, v) == Ok(With(m, i + 1, 0, v))
  {
    assert i * m.cols + m.cols == (i + 1) * m.cols + 0;
    CellBound(m.rows, m.cols, i + 1, 0);
  }

  /** On the 2 x 2 matrix [[1, 2], [3, 4]], `set(0, 2, 9)` is accepted and gives
      [[1, 2], [9, 4]]. */
  lemma SetCellAsWrittenExample()
    ensures SetCellAsWritten(Mat(2, 2, [1.0, 2.0, 3.0, 4.0]), 0, 2, 9.0)
         == Ok(Mat(2, 2, [1.0, 2.0, 9.0, 4.0]))
  {
    var cells := [1.0, 2.0, 3.0, 4.0];
    assert 0 * 2 + 2 == 2 < |cells|;
    assert cells[2 := 9.0] == [1.0, 2.0, 9.0, 4.0];
  }

  // ---------------------------------------------------------------------------
  // The class

  class Matrix {
    const nrows: nat
    const ncols: nat
    var data: array<real>

    /** The class invariant: the list holds rows * cols cells. */
    predicate Valid()
      reads this
    {
      data.Length == nrows * ncols
    }

    /** The matrix value the object holds now. */
    function Value(): (m: Mat)
      reads this, data
      ensures m.rows == nrows && m.cols == ncols && m.data == data[..]
      ensures Valid() ==> m.Valid()
    {
      Mat(nrows, ncols, data[..])
    }

    /** `Matrix(nrows, ncols, init_val=...)` without a data list: every cell is the initial value. */
    constructor (nrows: nat, ncols: nat, initVal: real := 0.0)
      ensures this.nrows == nrows && this.ncols == ncols
      ensures Valid() && fresh(data)
      ensures Value() == Mat(nrows, ncols, Fill(nrows * ncols, initVal))
    {
      this.nrows := nrows;
      this.ncols := ncols;
      data := new real[nrows * ncols](_ => initVal);
    }

    /** `Matrix(nrows, ncols, data)`: the default matrix, then `set_all(data)`. */
    static method Create(nrows: nat, ncols: nat, cells: array<real>) returns (r: Result<Matrix>)
      ensures r.Ok? <==> cells.Length == nrows * ncols
      ensures r.Err? ==> r.error == SizeMismatch
      ensures r.Ok? ==> fresh(r.value) && r.value.nrows == nrows && r.value.ncols == ncols
      ensures r.Ok? ==> r.value.Valid() && r.value.data == cells
    {
      var m := new Matrix(nrows, ncols);
      var o := m.SetAll(cells);
      if o.Fail? {
        return Err(o.error);
      }
      return Ok(m);
    }

    /** `set_all(data)`: SizeMismatch unless the list has exactly nrows * ncols cells;
        otherwise the object adopts that list itself. */
    method SetAll(cells: array<real>) returns (o: Outcome)
      modifies this
      ensures o.Pass? <==> cells.Length == nrows * ncols
      ensures o.Fail? ==> o.error == SizeMismatch && data == old(data)
      ensures o.Pass? ==> data == cells && Valid()
    {
      if cells.Length != nrows * ncols {
        return Fail(SizeMismatch);
      }
      data := cells;
      return Pass;
    }

    /** `get(i, j)` */
    method Get(i: int, j: int) returns (r: Result<real>)
      requires Valid()
      ensures r.Ok? <==> 0 <= i < nrows && 0 <= j < ncols
      ensures r.Err? ==> r.error == IndexOutOfBounds
      ensures r.Ok? ==> r.value == Value().At(i, j)
    {
      if !(0 <= i < nrows) || !(0 <= j < ncols) {
        return Err(IndexOutOfBounds);
      }
      CellBound(nrows, ncols, i, j);
      return Ok(data[i * ncols + j]);
    }

    /** `set(i, j, v)` as written: the `range(0, n + 1)` check, then the in-place
        list assignment. */
    method SetAsWritten(i: int, j: int, v: real) returns (o: Outcome)
      requires Valid()
      modifies data
      ensures o.Pass? <==> SetCellAsWritten(old(Value()), i, j, v).Ok?
      ensures o.Fail? ==> o.error == SetCellAsWritten(old(Value()), i, j, v).error && data[..] == old(data[..])
      ensures o.Pass? ==> Value() == SetCellAsWritten(old(Value()), i, j, v).value
    {
      if !(0 <= i <= nrows) || !(0 <= j <= ncols) {
        return Fail(IndexOutOfBounds);
      }
      var k := i * ncols + j;
      if k >= data.Length {
        return Fail(ListIndexError);
      }
      data[k] := v;
      return Pass;
    }

    /** `set(i, j, v)` with the bounds check the other accessors use: IndexOutOfBounds
        outside the matrix, otherwise cell (i, j) becomes v and no other cell changes. */
    method Set(i: int, j: int, v: real) returns (o: Outcome)
      requires Valid()
      modifies data
      ensures o.Pass? <==> 0 <= i < nrows && 0 <= j < ncols
      ensures o.Fail? ==> o.error == IndexOutOfBounds && data[..] == old(data[..])
      ensures o.Pass? ==> Value() == With(old(Value()), i, j, v)
    {
      if !(0 <= i < nrows) || !(0 <= j < ncols) {
        return Fail(IndexOutOfBounds);
      }
      CellBound(nrows, ncols, i, j);
      data[i * ncols + j] := v;
      return Pass;
    }

    /** `get_row(i)`: a copy of row i. */
    method GetRow(i: int) returns (r: Result<seq<real>>)
      requires Valid()
      ensures r.Ok? <==> 0 <= i < nrows
      ensures r.Err? ==> r.error == IndexOutOfBounds
      ensures r.Ok? ==> r.value == Row(Value(), i)
    {
      if !(0 <= i < nrows) {
        return Err(IndexOutOfBounds);
      }
      MulMono(i + 1, nrows, ncols);
      return Ok(data[i * ncols .. i * ncols + ncols]);
    }

    /** `get_col(j)`: the strided slice data[j::ncols], walked one step at a time. */
    method GetCol(j: int) returns (r: Result<seq<real>>)
      requires Valid()
      ensures r.Ok? <==> 0 <= j < ncols
      ensures r.Err? ==> r.error == IndexOutOfBounds
      ensures r.Ok? ==> r.value == Col(Value(), j)
    {
      if !(0 <= j < ncols) {
        return Err(IndexOutOfBounds);
      }
      var col: seq<real> := [];
      var k := j;
      while k < data.Length
        invariant j <= k
        invariant col + Stride(data[..], k, ncols) == Stride(data[..], j, ncols)
        decreases data.Length - k
      {
        col := col + [data[k]];
        k := k + ncols;
      }
      return Ok(col);
    }

    /** `add(mtx)`: the cell-by-cell sum, SizeMismatch unless the dimensions agree. */
    method Add(other: Matrix) returns (r: Result<Matrix>)
      requires Valid() && other.Valid()
      ensures r.Ok? <==> nrows == other.nrows && ncols == other.ncols
      ensures r.Err? ==> r.error == SizeMismatch
      ensures r.Ok? ==> fresh(r.value) && fresh(r.value.data) && r.value.Valid()
      ensures r.Ok? ==> r.value.Value() == Sum(Value(), other.Value())
    {
      if (nrows, ncols) != (other.nrows, other.ncols) {
        return Err(SizeMismatch);
      }
      var cells := new real[data.Length];
      for k := 0 to data.Length
        invariant forall p :: 0 <= p < k ==> cells[p] == data[p] + other.data[p]
      {
        cells[k] := data[k] + other.data[k];
      }
      var m := new Matrix(nrows, ncols);
      var _ := m.SetAll(cells);
      Matrices.ZipCells(Value(), other.Value(), m.Value(), (x, y) => x + y);
      Ext(m.Value(), Sum(Value(), other.Value()));
      return Ok(m);
    }

    /** `subtract(mtx)`: the cell-by-cell difference, SizeMismatch unless the dimensions agree. */
    method Subtract(other: Matrix) returns (r: Result<Matrix>)
      requires Valid() && other.Valid()
      ensures r.Ok? <==> nrows == other.nrows && ncols == other.ncols
      ensures r.Err? ==> r.error == SizeMismatch
      ensures r.Ok? ==> fresh(r.value) && fresh(r.value.data) && r.value.Valid()
      ensures r.Ok? ==> r.value.Value() == Difference(Value(), other.Value())
    {
      if (nrows, ncols) != (other.nrows, other.ncols) {
        return Err(SizeMismatch);
      }
      var cells := new real[data.Length];
      for k := 0 to data.Length
        invariant forall p :: 0 <= p < k ==> cells[p] == data[p] - other.data[p]
      {
        cells[k] := data[k] - other.data[k];
      }
      var m := new Matrix(nrows, ncols);
      var _ := m.SetAll(cells);
      Matrices.ZipCells(Value(), other.Value(), m.Value(), (x, y) => x - y);
      Ext(m.Value(), Difference(Value(), other.Value()));
      return Ok(m);
    }

    /** `add_const(c)` */
    method AddConst(c: real) returns (r: Matrix)
      requires Valid()
      ensures fresh(r) && fresh(r.data) && r.Valid()
      ensures r.Value() == MatrixSpec.AddConst(Value(), c)
    {
      var cells := new real[data.Length];
      for k := 0 to data.Length
        invariant forall p :: 0 <= p < k ==> cells[p] == data[p] + c
      {
        cells[k] := data[k] + c;
      }
      r := new Matrix(nrows, ncols);
      var _ := r.SetAll(cells);
      Matrices.MapCells(Value(), r.Value(), x => x + c);
      Ext(r.Value(), MatrixSpec.AddConst(Value(), c));
    }

    /** `scale(c)`: every cell multiplied by c. */
    method Scale(c: real) returns (r: Matrix)
      requires Valid()
      ensures fresh(r) && fresh(r.data) && r.Valid()
      ensures r.Value() == MatrixSpec.Scale(Value(), c)
    {
      var cells := new real[data.Length];
      for k := 0 to data.Length
        invariant forall p :: 0 <= p < k ==> cells[p] == data[p] * c
      {
        cells[k] := data[k] * c;
      }
      r := new Matrix(nrows, ncols);
      var _ := r.SetAll(cells);
      Matrices.MapCells(Value(), r.Value(), x => x * c);
      Ext(r.Value(), MatrixSpec.Scale(Value(), c));
    }

    /** `negative()`: `scale(-1)`. */
    method Negative() returns (r: Matrix)
      requires Valid()
      ensures fresh(r) && fresh(r.data) && r.Valid()
      ensures r.Value() == MatrixSpec.Scale(Value(), -1.0)
    {
      r := Scale(-1.0);
    }

    /** `inverse()`, `dot(mtx)`, `cross(mtx)` and `transpose()` have empty bodies in
        this copy: each returns None and changes nothing. */
    method Inverse() returns (r: Option<Matrix>)
      ensures r == None
    {
      r := None;
    }

    method Dot(other: Matrix) returns (r: Option<Matrix>)
      ensures r == None
    {
      r := None;
    }

    method Cross(other: Matrix) returns (r: Option<Matrix>)
      ensures r == None
    {
      r := None;
    }

    method Transpose() returns (r: Option<Matrix>)
      ensures r == None
    {
      r := None;
    }

    /** `m + x` (`__add__`): `add` for a matrix, `add_const` for an int or float, and
        for any other operand no branch returns, so the result is None. */
    method Plus(x: Operand) returns (r: Result<Option<Matrix>>)
      requires Valid() && (x.MatrixOperand? ==> x.m.Valid())
      ensures x.OtherOperand? ==> r == Ok(None)
      ensures x.NumberOperand? ==> r.Ok? && r.value.Some? && r.value.value.Value() == MatrixSpec.AddConst(Value(), x.c)
      ensures x.MatrixOperand? ==> (r.Ok? <==> nrows == x.m.nrows && ncols == x.m.ncols)
      ensures x.MatrixOperand? && r.Err? ==> r.error == SizeMismatch
      ensures x.MatrixOperand? && r.Ok? ==> r.value.Some? && r.value.value.Value() == Sum(Value(), x.m.Value())
      ensures r.Ok? && r.value.Some? ==> fresh(r.value.value) && fresh(r.value.value.data) && r.value.value.Valid()
    {
      match x
      case MatrixOperand(m) =>
        var s := Add(m);
        if s.Err? {
          return Err(s.error);
        }
        return Ok(Some(s.value));
      case NumberOperand(c) =>
        var s := AddConst(c);
        return Ok(Some(s));
      case OtherOperand =>
        return Ok(None);
    }

    /** `m - x` (`__sub__`): always `subtract(x)`, so an operand that is not a matrix
        fails when `subtract` asks for its dimensions. */
    method Minus(x: Operand) returns (r: Result<Matrix>)
      requires Valid() && (x.MatrixOperand? ==> x.m.Valid())
      ensures !x.MatrixOperand? ==> r == Err(MissingAttribute)
      ensures x.MatrixOperand? ==> (r.Ok? <==> nrows == x.m.nrows && ncols == x.m.ncols)
      ensures x.MatrixOperand? && r.Err? ==> r.error == SizeMismatch
      ensures r.Ok? ==> x.MatrixOperand? && r.value.Value() == Difference(Value(), x.m.Value())
      ensures r.Ok? ==> fresh(r.value) && fresh(r.value.data) && r.value.Valid()
    {
      if x.MatrixOperand? {
        r := Subtract(x.m);
      } else {
        r := Err(MissingAttribute);
      }
    }
  }
}
