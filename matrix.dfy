/** The dense row-major matrix class of pythonista3d/matrix.py.

    A `Matrix` keeps its shape and a flat, mutable list of cells. `set` writes a
    cell in place and `set_all` adopts the caller's list itself (no copy), so the
    list is an array the object points to, and two matrices, or a matrix and its
    caller, may share one. Every operation is proved against the value-level
    definition in MatrixSpec: `Value()` is the matrix the object currently holds. */
module Matrices {
  import opened Errors
  import opened Points
  import opened MatrixSpec

  /** The right-hand operand of a matrix operator: another matrix, a number, or any other
      Python object. */
  datatype Operand = MatrixOperand(m: Matrix) | NumberOperand(c: real) | OtherOperand

  class Matrix {
    const nrows: nat
    const ncols: nat
    var data: array<real>

    /** The class invariant: the list holds rows * cols cells. */
    predicate Valid()
      reads this
    {
      data.Length == nrows * ncols
    }

    /** The matrix value the object holds now. */
    function Value(): (m: Mat)
      reads this, data
      ensures m.rows == nrows && m.cols == ncols && m.data == data[..]
      ensures Valid() ==> m.Valid()
    {
      Mat(nrows, ncols, data[..])
    }

    /** `Matrix(nrows, ncols, init_val=...)` without a data list: every cell is the initial value. */
    constructor (nrows: nat, ncols: nat, initVal: real := 0.0)
      ensures this.nrows == nrows && this.ncols == ncols
      ensures Valid() && fresh(data)
      ensures Value() == Mat(nrows, ncols, Fill(nrows * ncols, initVal))
    {
      this.nrows := nrows;
      this.ncols := ncols;
      data := new real[nrows * ncols](_ => initVal);
    }

    /** `Matrix(nrows, ncols, data)`: the default matrix, then `set_all(data)`, which fails
        with SizeMismatch unless the list has exactly nrows * ncols cells. */
    static method Create(nrows: nat, ncols: nat, cells: array<real>) returns (r: Result<Matrix>)
      ensures r.Ok? <==> cells.Length == nrows * ncols
      ensures r.Err? ==> r.error == SizeMismatch
      ensures r.Ok? ==> fresh(r.value) && r.value.nrows == nrows && r.value.ncols == ncols
      ensures r.Ok? ==> r.value.Valid() && r.value.data == cells
    {
      var m := new Matrix(nrows, ncols);
      var o := m.SetAll(cells);
      if o.Fail? {
        return Err(o.error);
      }
      return Ok(m);
    }

    /** `set_all(data)`: adopts the given list itself when its length fits the shape. */
    method SetAll(cells: array<real>) returns (o: Outcome)
      modifies this
      ensures o.Pass? <==> cells.Length == nrows * ncols
      ensures o.Fail? ==> o.error == SizeMismatch && data == old(data)
      ensures o.Pass? ==> data == cells && Valid()
    {
      if cells.Length != nrows * ncols {
        return Fail(SizeMismatch);
      }
      data := cells;
      return Pass;
    }

    /** `get(i, j)` */
    method Get(i: int, j: int) returns (r: Result<real>)
      requires Valid()
      ensures r.Ok? <==> 0 <= i < nrows && 0 <= j < ncols
      ensures r.Err? ==> r.error == IndexOutOfBounds
      ensures r.Ok? ==> r.value == Value().At(i, j)
    {
      if !(0 <= i < nrows) || !(0 <= j < ncols) {
        return Err(IndexOutOfBounds);
      }
      CellBound(nrows, ncols, i, j);
      return Ok(data[i * ncols + j]);
    }

    /** `set(i, j, v)`: writes one cell of the list in place. */
    method Set(i: int, j: int, v: real) returns (o: Outcome)
      requires Valid()
      modifies data
      ensures o.Pass? <==> 0 <= i < nrows && 0 <= j < ncols
      ensures o.Fail? ==> o.error == IndexOutOfBounds && data[..] == old(data[..])
      ensures o.Pass? ==> Value() == With(old(Value()), i, j, v)
    {
      if !(0 <= i < nrows) || !(0 <= j < ncols) {
        return Fail(IndexOutOfBounds);
      }
      CellBound(nrows, ncols, i, j);
      data[i * ncols + j] := v;
      return Pass;
    }

    /** `get_row(i)`: a copy of row i. */
    method GetRow(i: int) returns (r: Result<seq<real>>)
      requires Valid()
      ensures r.Ok? <==> 0 <= i < nrows
      ensures r.Err? ==> r.error == IndexOutOfBounds
      ensures r.Ok? ==> r.value == Row(Value(), i)
    {
      if !(0 <= i < nrows) {
        return Err(IndexOutOfBounds);
      }
      MulMono(i + 1, nrows, ncols);
      return Ok(data[i * ncols .. i * ncols + ncols]);
    }

    /** `get_col(j)`: the strided slice data[j::ncols], walked one step at a time. */
    method GetCol(j: int) returns (r: Result<seq<real>>)
      requires Valid()
      ensures r.Ok? <==> 0 <= j < ncols
      ensures r.Err? ==> r.error == IndexOutOfBounds
      ensures r.Ok? ==> r.value == Col(Value(), j)
    {
      if !(0 <= j < ncols) {
        return Err(IndexOutOfBounds);
      }
      var col: seq<real> := [];
      var k := j;
      while k < data.Length
        invariant j <= k
        invariant col + Stride(data[..], k, ncols) == Stride(data[..], j, ncols)
        decreases data.Length - k
      {
        col := col + [data[k]];
        k := k + ncols;
      }
      return Ok(col);
    }

    /** `as_list()`: a copy of the flat list. */
    method AsList() returns (r: seq<real>)
      requires Valid()
      ensures |r| == nrows * ncols && Mat(nrows, ncols, r) == Value()
    {
      r := data[..];
    }

    /** `as_2d_list()`: the rows, each a copy. */
    method As2DList() returns (r: seq<seq<real>>)
      requires Valid()
      ensures |r| == nrows
      ensures forall i :: 0 <= i < nrows ==> r[i] == Row(Value(), i)
    {
      r := [];
      for i := 0 to nrows
        invariant |r| == i
        invariant forall p :: 0 <= p < i ==> r[p] == Row(Value(), p)
      {
        MulMono(i + 1, nrows, ncols);
        r := r + [data[i * ncols .. i * ncols + ncols]];
      }
    }

    /** `clone()`: a new matrix over a copy of the list. */
    method Clone() returns (c: Matrix)
      requires Valid()
      ensures fresh(c) && fresh(c.data) && c.Valid()
      ensures c.nrows == nrows && c.ncols == ncols && c.Value() == Value()
    {
      var src := data;
      var cells := new real[src.Length](k requires 0 <= k < src.Length reads src => src[k]);
      c := new Matrix(nrows, ncols);
      var _ := c.SetAll(cells);
    }
    /** `add(mtx)`: the cell-by-cell sum, SizeMismatch unless the shapes agree. */
    method Add(other: Matrix) returns (r: Result<Matrix>)
      requires Valid() && other.Valid()
      ensures r.Ok? <==> nrows == other.nrows && ncols == other.ncols
      ensures r.Err? ==> r.error == SizeMismatch
      ensures r.Ok? ==> fresh(r.value) && fresh(r.value.data) && r.value.Valid()
      ensures r.Ok? ==> r.value.Value() == Sum(Value(), other.Value())
    {
      if (nrows, ncols) != (other.nrows, other.ncols) {
        return Err(SizeMismatch);
      }
      var cells := new real[data.Length];
      for k := 0 to data.Length
        invariant forall p :: 0 <= p < k ==> cells[p] == data[p] + other.data[p]
      {
        cells[k] := data[k] + other.data[k];
      }
      var m := new Matrix(nrows, ncols);
      var _ := m.SetAll(cells);
      ZipCells(Value(), other.Value(), m.Value(), (x, y) => x + y);
      Ext(m.Value(), Sum(Value(), other.Value()));
      return Ok(m);
    }

    /** `subtract(mtx)`: the cell-by-cell difference, SizeMismatch unless the shapes agree. */
    method Subtract(other: Matrix) returns (r: Result<Matrix>)
      requires Valid() && other.Valid()
      ensures r.Ok? <==> nrows == other.nrows && ncols == other.ncols
      ensures r.Err? ==> r.error == SizeMismatch
      ensures r.Ok? ==> fresh(r.value) && fresh(r.value.data) && r.value.Valid()
      ensures r.Ok? ==> r.value.Value() == Difference(Value(), other.Value())
    {
      if (nrows, ncols) != (other.nrows, other.ncols) {
        return Err(SizeMismatch);
      }
      var cells := new real[data.Length];
      for k := 0 to data.Length
        invariant forall p :: 0 <= p < k ==> cells[p] == data[p] - other.data[p]
      {
        cells[k] := data[k] - other.data[k];
      }
      var m := new Matrix(nrows, ncols);
      var _ := m.SetAll(cells);
      ZipCells(Value(), other.Value(), m.Value(), (x, y) => x - y);
      Ext(m.Value(), Difference(Value(), other.Value()));
      return Ok(m);
    }

    /** `add_const(c)` */
    method AddConst(c: real) returns (r: Matrix)
      requires Valid()
      ensures fresh(r) && fresh(r.data) && r.Valid()
      ensures r.Value() == MatrixSpec.AddConst(Value(), c)
    {
      var cells := new real[data.Length];
      for k := 0 to data.Length
        invariant forall p :: 0 <= p < k ==> cells[p] == data[p] + c
      {
        cells[k] := data[k] + c;
      }
      r := new Matrix(nrows, ncols);
      var _ := r.SetAll(cells);
      MapCells(Value(), r.Value(), x => x + c);
      Ext(r.Value(), MatrixSpec.AddConst(Value(), c));
    }

    /** `divide(c)`: every cell divided by c; ZeroDivisionError when c is 0. */
    method Divide(c: real) returns (r: Result<Matrix>)
      requires Valid()
      ensures r.Ok? <==> c != 0.0
      ensures r.Err? ==> r.error == DivideByZero
      ensures r.Ok? ==> fresh(r.value) && fresh(r.value.data) && r.value.Valid()
      ensures r.Ok? ==> r.value.Value() == Quotient(Value(), c)
    {
      if c == 0.0 {
        return Err(DivideByZero);
      }
      var cells := new real[data.Length];
      for k := 0 to data.Length
        invariant forall p :: 0 <= p < k ==> cells[p] == data[p] / c
      {
        cells[k] := data[k] / c;
      }
      var m := new Matrix(nrows, ncols);
      var _ := m.SetAll(cells);
      MapCells(Value(), m.Value(), x => x / c);
      QuotientCells(Value(), m.Value(), c);
      return Ok(m);
    }

    /** `int_divide(c)`: every cell floor-divided by c; ZeroDivisionError when c is 0. */
    method IntDivide(c: real) returns (r: Result<Matrix>)
      requires Valid()
      ensures r.Ok? <==> c != 0.0
      ensures r.Err? ==> r.error == DivideByZero
      ensures r.Ok? ==> fresh(r.value) && fresh(r.value.data) && r.value.Valid()
      ensures r.Ok? ==> r.value.Value() == FloorQuotient(Value(), c)
    {
      if c == 0.0 {
        return Err(DivideByZero);
      }
      var cells := new real[data.Length];
      for k := 0 to data.Length
        invariant forall p :: 0 <= p < k ==> cells[p] == (data[p] / c).Floor as real
      {
        cells[k] := (data[k] / c).Floor as real;
      }
      var m := new Matrix(nrows, ncols);
      var _ := m.SetAll(cells);
      MapCells(Value(), m.Value(), x => (x / c).Floor as real);
      FloorQuotientCells(Value(), m.Value(), c);
      return Ok(m);
    }

    /** `scale(c)`: every cell multiplied by c. */
    method Scale(c: real) returns (r: Matrix)
      requires Valid()
      ensures fresh(r) && fresh(r.data) && r.Valid()
      ensures r.Value() == MatrixSpec.Scale(Value(), c)
    {
      var cells := new real[data.Length];
      for k := 0 to data.Length
        invariant forall p :: 0 <= p < k ==> cells[p] == data[p] * c
      {
        cells[k] := data[k] * c;
      }
      r := new Matrix(nrows, ncols);
      var _ := r.SetAll(cells);
      MapCells(Value(), r.Value(), x => x * c);
      Ext(r.Value(), MatrixSpec.Scale(Value(), c));
    }

    /** `negative()`: `scale(-1)`. */
    method Negative() returns (r: Matrix)
      requires Valid()
      ensures fresh(r) && fresh(r.data) && r.Valid()
      ensures r.Value() == MatrixSpec.Scale(Value(), -1.0)
    {
      r := Scale(-1.0);
    }
    /** `dot(mtx)`: cell (row, col) of the new matrix is the zip-and-sum of row `row`
        with column `col`; SizeMismatch unless this width is the other's height. */
    method Dot(other: Matrix) returns (r: Result<Matrix>)
      requires Valid() && other.Valid()
      ensures r.Ok? <==> ncols == other.nrows
      ensures r.Err? ==> r.error == SizeMismatch
      ensures r.Ok? ==> fresh(r.value) && fresh(r.value.data) && r.value.Valid()
      ensures r.Ok? ==> r.value.Value() == Product(Value(), other.Value())
    {
      if ncols != other.nrows {
        return Err(SizeMismatch);
      }
      ghost var a, b := Value(), other.Value();
      var m := new Matrix(nrows, other.ncols);
      for row := 0 to nrows
        invariant m.Valid() && fresh(m.data)
        invariant forall i, j :: 0 <= i < row && 0 <= j < b.cols ==>
          m.Value().At(i, j) == SumProducts(Row(a, i), Col(b, j))
      {
        DotRow(other, m, row);
      }
      ProductCells(a, b, m.Value());
      Ext(m.Value(), Product(a, b));
      return Ok(m);
    }

/** The inner loop of `dot()`: fills one row of the product. */
    method DotRow(other: Matrix, m: Matrix, row: nat)
      requires Valid() && other.Valid() && m.Valid() && ncols == other.nrows
      requires m.nrows == nrows && m.ncols == other.ncols && row < nrows
      requires m.data != data && m.data != other.data
      modifies m.data
      ensures forall i, j :: 0 <= i < nrows && 0 <= j < m.ncols && i != row ==>
        m.Value().At(i, j) == old(m.Value()).At(i, j)
      ensures forall j :: 0 <= j < m.ncols ==> m.Value().At(row, j) == SumProducts(Row(Value(), row), Col(other.Value(), j))
    {
      ghost var before := m.Value();
      for col := 0 to other.ncols
        invariant m.Valid()
        invariant forall i, j :: 0 <= i < nrows && 0 <= j < m.ncols && i != row ==>
          m.Value().At(i, j) == before.At(i, j)
        invariant forall j :: 0 <= j < col ==> m.Value().At(row, j) == SumProducts(Row(Value(), row), Col(other.Value(), j))
      {
        var rowCells := GetRow(row);
        var colCells := other.GetCol(col);
        var _ := m.Set(row, col, SumProducts(rowCells.value, colCells.value));
      }
    }

        /** `transpose()`: cell (col, row) of the new matrix is cell (row, col) of this one. */
    method Transpose() returns (t: Matrix)
      requires Valid()
      ensures fresh(t) && fresh(t.data) && t.Valid()
      ensures t.Value() == MatrixSpec.Transpose(Value())
    {
      ghost var a := Value();
      t := new Matrix(ncols, nrows);
      for row := 0 to nrows
        invariant t.Valid() && fresh(t.data)
        invariant forall i, j :: 0 <= i < ncols && 0 <= j < row ==> t.Value().At(i, j) == a.At(j, i)
      {
        for col := 0 to ncols
          invariant t.Valid() && fresh(t.data)
          invariant forall i, j :: 0 <= i < ncols && 0 <= j < row ==> t.Value().At(i, j) == a.At(j, i)
          invariant forall i :: 0 <= i < col ==> t.Value().At(i, row) == a.At(row, i)
        {
          var v := Get(row, col);
          var _ := t.Set(col, row, v.value);
        }
      }
      Ext(t.Value(), MatrixSpec.Transpose(a));
    }
    /** `get_sub_matrix(row, col)`: the cells of every other row and column, appended in
        order to a fresh list that the new matrix takes as its own. */
    method GetSubMatrix(row: int, col: int) returns (r: Result<Matrix>)
      requires Valid()
      ensures r.Ok? <==> 0 <= row < nrows && 0 <= col < ncols
      ensures r.Err? ==> r.error == IndexOutOfBounds
      ensures r.Ok? ==> fresh(r.value) && fresh(r.value.data) && r.value.Valid()
      ensures r.Ok? ==> r.value.Value() == SubMatrix(Value(), row, col)
    {
      if !(0 <= row < nrows) || !(0 <= col < ncols) {
        return Err(IndexOutOfBounds);
      }
      ghost var a := Value();
      var m := new Matrix(nrows - 1, ncols - 1);
      var cells: seq<real> := [];
      for i := 0 to nrows
        invariant cells == KeptCells(a, row, col, i)
      {
        if i == row {
          continue;
        }
        for j := 0 to ncols
          invariant cells == KeptCells(a, row, col, i) + RowWithout(a, i, col, j)
        {
          if j == col {
            continue;
          }
          var v := Get(i, j);
          cells := cells + [v.value];
        }
      }
      KeptCellsCells(a, row, col, nrows);
      Ext(Mat(nrows - 1, ncols - 1, cells), SubMatrix(a, row, col));
      m.data := new real[|cells|](k requires 0 <= k < |cells| => cells[k]);
      return Ok(m);
    }

    /** `get_determinant()`: SizeMismatch on a non-square matrix (the documented error;
        see `DeterminantAsWritten` for the code as written); the single cell of a
        1 x 1 matrix; ad - bc for a 2 x 2 one; otherwise the expansion along row 0 with
        alternating signs, each minor's determinant computed recursively. The empty
        matrix fails in `get_row(0)`. */
    method GetDeterminant() returns (r: Result<real>)
      requires Valid()
      ensures r == Determinant(Value())
      decreases nrows, 1
    {
      if nrows != ncols {
        return Err(SizeMismatch);
      }
      if nrows == 1 {
        return Ok(data[0]);
      } else if nrows == 2 {
        assert Det(Value()) == data[0] * data[3] - data[1] * data[2];
        return Ok(data[0] * data[3] - data[1] * data[2]);
      }
      var top := GetRow(0);
      if top.Err? {
        return Err(top.error);
      }
      var total := ExpandAlongRow(top.value);
      return Ok(total);
    }

    /** The loop of `get_determinant` for a square matrix of size 3 or more: walks row 0
        with an alternating sign, adding sign * cell * det(minor) for each column. */
    method ExpandAlongRow(top: seq<real>) returns (total: real)
      requires Valid() && nrows == ncols >= 3
      requires |top| == ncols && forall j :: 0 <= j < ncols ==> top[j] == Value().At(0, j)
      ensures total == Det(Value())
      decreases nrows, 0
    {
      ghost var a := Value();
      var mult := 1.0;
      total := 0.0;
      for col := 0 to |top|
        invariant total == Expansion(a, col) && mult == Sign(col)
      {
        var sub := GetSubMatrix(0, col);
        var d := sub.value.GetDeterminant();
        ExpansionStep(a, col, mult, top[col], d.value);
        total := total + mult * top[col] * d.value;
        mult := -mult;
      }
    }

    /** `inverse()`: the matrix of signed minor determinants, transposed and scaled by
        1 / det. Failures surface where the code meets them: the first minor's
        determinant (non-square, or 1 x 1 with its empty minor), then the determinant of
        the matrix itself (shapes with no cells), then a zero determinant. */
    method Inverse() returns (r: Result<Matrix>)
      requires Valid()
      ensures r.Ok? == MatrixSpec.Inverse(Value()).Ok?
      ensures r.Err? ==> r.error == MatrixSpec.Inverse(Value()).error
      ensures r.Ok? ==> fresh(r.value) && r.value.Valid() && r.value.Value() == MatrixSpec.Inverse(Value()).value
    {
      var minors := SignedMinors();
      if minors.Err? {
        return Err(minors.error);
      }
      var t := minors.value.Transpose();
      var det := GetDeterminant();
      if det.Err? {
        return Err(det.error);
      }
      if det.value == 0.0 {
        return Err(NoInverse);
      }
      var s := t.Scale(1.0 / det.value);
      return Ok(s);
    }

    /** Steps 1 and 2 of `inverse()`: each cell replaced by the determinant of its minor
        times (-1)^(row + col). The first minor's determinant fails unless the matrix is
        square and at least 2 x 2; then none fails. */
    method SignedMinors() returns (r: Result<Matrix>)
      requires Valid()
      ensures r.Err? ==> MatrixSpec.Inverse(Value()).Err? && r.error == MatrixSpec.Inverse(Value()).error
      ensures r.Ok? ==> fresh(r.value) && fresh(r.value.data) && r.value.Valid()
      ensures r.Ok? ==> r.value.nrows == nrows && r.value.ncols == ncols
      ensures r.Ok? && nrows > 0 && ncols > 0 ==> nrows == ncols >= 2 && r.value.Value() == Cofactors(Value())
    {
      ghost var a := Value();
      var m := new Matrix(nrows, ncols);
      for row := 0 to nrows
        invariant m.Valid() && fresh(m.data)
        invariant row > 0 && ncols > 0 ==> nrows == ncols >= 2
        invariant forall i, j :: 0 <= i < row && 0 <= j < ncols ==>
          m.Value().At(i, j) == Det(SubMatrix(a, i, j)) * Sign(i + j)
      {
        var o := SignedMinorsRow(m, row);
        if o.Fail? {
          return Err(o.error);
        }
      }
      if nrows > 0 && ncols > 0 {
        Ext(m.Value(), Cofactors(a));
      }
      return Ok(m);
    }

    /** The inner loop of steps 1 and 2 of `inverse()`, over the columns of one row. */
    method SignedMinorsRow(m: Matrix, row: nat) returns (o: Outcome)
      requires Valid() && m.Valid() && m.nrows == nrows && m.ncols == ncols && m.data != data
      requires row < nrows && (row > 0 && ncols > 0 ==> nrows == ncols >= 2)
      modifies m.data
      ensures o.Fail? ==> MatrixSpec.Inverse(Value()).Err? && o.error == MatrixSpec.Inverse(Value()).error
      ensures o.Pass? && ncols > 0 ==> nrows == ncols >= 2
      ensures o.Pass? ==> forall i, j :: 0 <= i < nrows && 0 <= j < ncols && i != row ==>
        m.Value().At(i, j) == old(m.Value()).At(i, j)
      ensures o.Pass? ==> forall j :: 0 <= j < ncols ==>
        m.Value().At(row, j) == Det(SubMatrix(Value(), row, j)) * Sign(row + j)
    {
      ghost var a := Value();
      ghost var before := m.Value();
      for col := 0 to ncols
        invariant m.Valid()
        invariant (row > 0 || col > 0) && ncols > 0 ==> nrows == ncols >= 2
        invariant forall i, j :: 0 <= i < nrows && 0 <= j < ncols && i != row ==>
          m.Value().At(i, j) == before.At(i, j)
        invariant forall j :: 0 <= j < col ==> m.Value().At(row, j) == Det(SubMatrix(a, row, j)) * Sign(row + j)
      {
        var v := SignedMinor(row, col);
        if v.Err? {
          return Fail(v.error);
        }
        var _ := m.Set(row, col, v.value);
      }
      return Pass;
    }

    /** One cell of steps 1 and 2 of `inverse()`: the determinant of the minor of cell
        (row, col), times (-1)^(row + col). */
    method SignedMinor(row: nat, col: nat) returns (r: Result<real>)
      requires Valid() && row < nrows && col < ncols
      ensures r.Err? ==> MatrixSpec.Inverse(Value()).Err? && r.error == MatrixSpec.Inverse(Value()).error
      ensures r.Ok? ==> nrows == ncols >= 2 && r.value == Det(SubMatrix(Value(), row, col)) * Sign(row + col)
    {
      var sub := GetSubMatrix(row, col);
      var d := sub.value.GetDeterminant();
      if d.Err? {
        return Err(d.error);
      }
      assert sub.value.nrows == nrows - 1 && sub.value.ncols == ncols - 1;
      return Ok(d.value * Sign(row + col));
    }

    /** `identity_matrix(size)`: the list `[1] + ([0] * size + [1]) * (size - 1)` handed to
        the constructor, which rejects it for size 0. */
    static method IdentityMatrix(size: nat) returns (r: Result<Matrix>)
      ensures r.Ok? <==> MatrixSpec.IdentityMatrix(size).Ok?
      ensures r.Err? ==> r.error == MatrixSpec.IdentityMatrix(size).error
      ensures r.Ok? ==> fresh(r.value) && fresh(r.value.data) && r.value.Valid()
      ensures r.Ok? ==> r.value.Value() == MatrixSpec.IdentityMatrix(size).value
    {
      var cells := IdentityData(size);
      var arr := new real[|cells|](k requires 0 <= k < |cells| => cells[k]);
      assert arr[..] == cells;
      r := Create(size, size, arr);
      IdentityDataCells(size);
    }

    /** `from_point(pt)`, reading the point's components: a single column holding them. */
    static method FromPoint(p: Point) returns (r: Matrix)
      requires p.Valid()
      ensures fresh(r) && fresh(r.data) && r.Valid()
      ensures r.Value() == PaddedColumn(p, 0)
    {
      r := FromPointWithPadding(p, 0);
    }

    /** `from_point_with_padding(pt, pad_size, pad_value)`, reading the point's components:
        a single column holding them followed by pad_size copies of pad_value. */
    static method FromPointWithPadding(p: Point, padSize: nat := 1, padValue: real := 1.0) returns (r: Matrix)
      requires p.Valid()
      ensures fresh(r) && fresh(r.data) && r.Valid()
      ensures r.Value() == PaddedColumn(p, padSize, padValue)
    {
      var cells := p.vals + Fill(padSize, padValue);
      var arr := new real[|cells|](k requires 0 <= k < |cells| => cells[k]);
      assert arr[..] == cells;
      var m := Create(p.ndims + padSize, 1, arr);
      r := m.value;
    }

    /** `m + x` and `x + m` (`__add__`, `__radd__`): `add` for a matrix, `add_const` for a
        number, TypeError for anything else. */
    method Plus(x: Operand) returns (r: Result<Matrix>)
      requires Valid() && (x.MatrixOperand? ==> x.m.Valid())
      ensures x.OtherOperand? ==> r == Err(UnsupportedOperand)
      ensures x.NumberOperand? ==> r.Ok? && r.value.Value() == MatrixSpec.AddConst(Value(), x.c)
      ensures x.MatrixOperand? ==> (r.Ok? <==> nrows == x.m.nrows && ncols == x.m.ncols)
      ensures x.MatrixOperand? && r.Err? ==> r.error == SizeMismatch
      ensures x.MatrixOperand? && r.Ok? ==> r.value.Value() == Sum(Value(), x.m.Value())
      ensures r.Ok? ==> fresh(r.value) && fresh(r.value.data) && r.value.Valid()
    {
      match x
      case MatrixOperand(m) => r := Add(m);
      case NumberOperand(c) => var s := AddConst(c); r := Ok(s);
      case OtherOperand => r := Err(UnsupportedOperand);
    }

    /** `m - x` (`__sub__`): `subtract` for a matrix, `add_const(-1 * x)` for a number,
        TypeError for anything else. */
    method Minus(x: Operand) returns (r: Result<Matrix>)
      requires Valid() && (x.MatrixOperand? ==> x.m.Valid())
      ensures x.OtherOperand? ==> r == Err(UnsupportedOperand)
      ensures x.NumberOperand? ==> r.Ok? && r.value.Value() == MatrixSpec.AddConst(Value(), -x.c)
      ensures x.MatrixOperand? ==> (r.Ok? <==> nrows == x.m.nrows && ncols == x.m.ncols)
      ensures x.MatrixOperand? && r.Err? ==> r.error == SizeMismatch
      ensures x.MatrixOperand? && r.Ok? ==> r.value.Value() == Difference(Value(), x.m.Value())
      ensures r.Ok? ==> fresh(r.value) && fresh(r.value.data) && r.value.Valid()
    {
      match x
      case MatrixOperand(m) => r := Subtract(m);
      case NumberOperand(c) => var s := AddConst(-1.0 * c); r := Ok(s);
      case OtherOperand => r := Err(UnsupportedOperand);
    }

    /** `m * x` and `x * m` (`__mul__`, `__rmul__`): `dot` for a matrix, `scale` for a
        number, TypeError for anything else. */
    method Times(x: Operand) returns (r: Result<Matrix>)
      requires Valid() && (x.MatrixOperand? ==> x.m.Valid())
      ensures x.OtherOperand? ==> r == Err(UnsupportedOperand)
      ensures x.NumberOperand? ==> r.Ok? && r.value.Value() == MatrixSpec.Scale(Value(), x.c)
      ensures x.MatrixOperand? ==> (r.Ok? <==> ncols == x.m.nrows)
      ensures x.MatrixOperand? && r.Err? ==> r.error == SizeMismatch
      ensures x.MatrixOperand? && r.Ok? ==> r.value.Value() == Product(Value(), x.m.Value())
      ensures r.Ok? ==> fresh(r.value) && fresh(r.value.data) && r.value.Valid()
    {
      match x
      case MatrixOperand(m) => r := Dot(m);
      case NumberOperand(c) => var s := Scale(c); r := Ok(s);
      case OtherOperand => r := Err(UnsupportedOperand);
    }

    /** `m // x` (`__floordiv__`): `int_divide` for a number, TypeError otherwise. */
    method FloorDiv(x: Operand) returns (r: Result<Matrix>)
      requires Valid()
      ensures !x.NumberOperand? ==> r == Err(UnsupportedOperand)
      ensures x.NumberOperand? ==> (r.Ok? <==> x.c != 0.0)
      ensures x.NumberOperand? && r.Err? ==> r.error == DivideByZero
      ensures r.Ok? ==> x.NumberOperand? && r.value.Value() == FloorQuotient(Value(), x.c)
      ensures r.Ok? ==> fresh(r.value) && fresh(r.value.data) && r.value.Valid()
    {
      if x.NumberOperand? {
        r := IntDivide(x.c);
      } else {
        r := Err(UnsupportedOperand);
      }
    }

    /** `m / x` (`__truediv__`): `divide` for a number, TypeError otherwise. */
    method TrueDiv(x: Operand) returns (r: Result<Matrix>)
      requires Valid()
      ensures !x.NumberOperand? ==> r == Err(UnsupportedOperand)
      ensures x.NumberOperand? ==> (r.Ok? <==> x.c != 0.0)
      ensures x.NumberOperand? && r.Err? ==> r.error == DivideByZero
      ensures r.Ok? ==> x.NumberOperand? && r.value.Value() == Quotient(Value(), x.c)
      ensures r.Ok? ==> fresh(r.value) && fresh(r.value.data) && r.value.Valid()
    {
      if x.NumberOperand? {
        r := Divide(x.c);
      } else {
        r := Err(UnsupportedOperand);
      }
    }
  }

  /** A flat list computed cell by cell from one matrix's list holds f of each cell. */
  lemma MapCells(a: Mat, r: Mat, f: real -> real)
    requires a.Valid() && r.Valid() && r.rows == a.rows && r.cols == a.cols
    requires forall k :: 0 <= k < |a.data| ==> r.data[k] == f(a.data[k])
    ensures forall i, j :: 0 <= i < a.rows && 0 <= j < a.cols ==> r.At(i, j) == f(a.At(i, j))
  {
    forall i, j | 0 <= i < a.rows && 0 <= j < a.cols
      ensures r.At(i, j) == f(a.At(i, j))
    {
      CellBound(a.rows, a.cols, i, j);
    }
  }

  /** A flat list computed from two lists zipped holds f of each pair of cells. */
  lemma ZipCells(a: Mat, b: Mat, r: Mat, f: (real, real) -> real)
    requires a.Valid() && b.Valid() && r.Valid()
    requires b.rows == a.rows && b.cols == a.cols && r.rows == a.rows && r.cols == a.cols
    requires forall k :: 0 <= k < |a.data| ==> r.data[k] == f(a.data[k], b.data[k])
    ensures forall i, j :: 0 <= i < a.rows && 0 <= j < a.cols ==> r.At(i, j) == f(a.At(i, j), b.At(i, j))
  {
    forall i, j | 0 <= i < a.rows && 0 <= j < a.cols
      ensures r.At(i, j) == f(a.At(i, j), b.At(i, j))
    {
      CellBound(a.rows, a.cols, i, j);
    }
  }

  lemma QuotientCells(a: Mat, r: Mat, c: real)
    requires a.Valid() && r.Valid() && r.rows == a.rows && r.cols == a.cols && c != 0.0
    requires forall i, j :: 0 <= i < a.rows && 0 <= j < a.cols ==> r.At(i, j) == a.At(i, j) / c
    ensures r == Quotient(a, c)
  {
    var q := Quotient(a, c);
    forall i, j | 0 <= i < a.rows && 0 <= j < a.cols
      ensures r.At(i, j) == q.At(i, j)
    {
      assert q.At(i, j) * c == a.At(i, j);
    }
    Ext(r, q);
  }

  lemma FloorQuotientCells(a: Mat, r: Mat, c: real)
    requires a.Valid() && r.Valid() && r.rows == a.rows && r.cols == a.cols && c != 0.0
    requires forall i, j :: 0 <= i < a.rows && 0 <= j < a.cols ==> r.At(i, j) == (a.At(i, j) / c).Floor as real
    ensures r == FloorQuotient(a, c)
  {
    var q := FloorQuotient(a, c);
    forall i, j | 0 <= i < a.rows && 0 <= j < a.cols
      ensures r.At(i, j) == q.At(i, j)
    {
      var x := a.At(i, j) / c;
      assert q.At(i, j) == (q.At(i, j).Floor as real) && q.At(i, j) <= x < q.At(i, j) + 1.0;
    }
    Ext(r, q);
  }

  /** One more term of the expansion along row 0: the sign, the cell and the minor's
      determinant, multiplied in the order get_determinant multiplies them. */
  lemma ExpansionStep(a: Mat, col: nat, sign: real, cell: real, minor: real)
    requires a.Valid() && a.rows == a.cols && a.rows >= 3 && col < a.cols
    requires sign == Sign(col) && cell == a.At(0, col) && minor == Det(SubMatrix(a, 0, col))
    ensures Expansion(a, col + 1) == Expansion(a, col) + sign * cell * minor
    ensures -sign == Sign(col + 1)
  {
    SameProduct(sign, cell, minor, Sign(col), a.At(0, col), Det(SubMatrix(a, 0, col)));
    SignNext(col);
  }

  lemma SameProduct(s: real, x: real, d: real, s2: real, x2: real, d2: real)
    requires s == s2 && x == x2 && d == d2
    ensures s * x * d == s2 * x2 * d2
  {
  }

  lemma SignNext(k: nat)
    ensures Sign(k + 1) == -Sign(k)
  {
  }
}
