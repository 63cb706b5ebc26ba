/** Value-level meaning of the dense row-major matrix of pythonista3d/matrix.py.

    A matrix value is its row count, its column count and the flat row-major
    list of its cells. Every operation of the engine is defined here on such
    values, in the way the Python code computes it (slices, strided slices,
    zip-and-sum, lists built by appending), and each definition states in its
    contract what it means cell by cell. The class in matrix.dfy is proved
    against these functions. */
module MatrixSpec {
  import opened Errors
  import opened Points

  datatype Mat = Mat(rows: nat, cols: nat, data: seq<real>) {

    /** The engine's invariant: the flat list holds exactly rows * cols cells. */
    predicate Valid() {
      |data| == rows * cols
    }

    /** The cell in row i, column j of the row-major layout. */
    function At(i: int, j: int): real
      requires Valid() && 0 <= i < rows && 0 <= j < cols
    {
      CellBound(rows, cols, i, j);
      data[i * cols + j]
    }
  }

  // ---------------------------------------------------------------------------
  // Row-major index arithmetic

  lemma MulMono(a: nat, b: nat, c: nat)
    requires a <= b
    ensures a * c <= b * c
  {
  }

  /** Cell (i, j) of a rows x cols matrix lies inside the flat list. */
  lemma CellBound(rows: nat, cols: nat, i: int, j: int)
    requires 0 <= i < rows && 0 <= j < cols
    ensures 0 <= i * cols + j < rows * cols
  {
    MulMono(i + 1, rows, cols);
  }

  /** Two cells with the same flat index are the same cell. */
  lemma CellUnique(cols: nat, i: nat, j: int, i2: nat, j2: int)
    requires 0 <= j < cols && 0 <= j2 < cols
    requires i * cols + j == i2 * cols + j2
    ensures i == i2 && j == j2
  {
    if i < i2 {
      MulMono(i + 1, i2, cols);
    } else if i2 < i {
      MulMono(i2 + 1, i, cols);
    }
  }

  /** Every flat index names the cell (k / cols, k % cols). */
  lemma CellOf(rows: nat, cols: nat, k: int)
    requires 0 <= k < rows * cols
    ensures cols > 0 && 0 <= k / cols < rows && 0 <= k % cols < cols
    ensures k == (k / cols) * cols + k % cols
  {
    if cols > 0 && k / cols >= rows {
      MulMono(rows, k / cols, cols);
    }
  }

  /** The matrix whose cell (i, j) is f(i, j): the one GenRows lays out, characterised
      by its cells alone, so that proofs about it never unfold the layout. */
  ghost function Gen(rows: nat, cols: nat, f: (int, int) -> real): (m: Mat)
    ensures m.Valid() && m.rows == rows && m.cols == cols
    ensures forall i, j :: 0 <= i < rows && 0 <= j < cols ==> m.At(i, j) == f(i, j)
  {
    GenRowsCells(rows, cols, f);
    var w := Mat(rows, cols, GenRows(rows, cols, f));
    assert w.Valid() && w.rows == rows && w.cols == cols &&
      forall i, j :: 0 <= i < rows && 0 <= j < cols ==> w.At(i, j) == f(i, j);
    var m: Mat :| m.Valid() && m.rows == rows && m.cols == cols &&
      forall i, j :: 0 <= i < rows && 0 <= j < cols ==> m.At(i, j) == f(i, j);
    m
  }

  /** Rows 0 .. rows - 1 of the generated matrix, laid out one after another. */
  function GenRows(rows: nat, cols: nat, f: (int, int) -> real): seq<real> {
    if rows == 0 then [] else GenRows(rows - 1, cols, f) + seq(cols, j => f(rows - 1, j))
  }

  lemma {:induction false} GenRowsCells(rows: nat, cols: nat, f: (int, int) -> real)
    ensures |GenRows(rows, cols, f)| == rows * cols
    ensures forall i, j :: 0 <= i < rows && 0 <= j < cols ==>
      Mat(rows, cols, GenRows(rows, cols, f)).At(i, j) == f(i, j)
  {
    if rows > 0 {
      GenRowsCells(rows - 1, cols, f);
      var before, last := GenRows(rows - 1, cols, f), seq(cols, j => f(rows - 1, j));
      assert GenRows(rows, cols, f) == before + last;
      forall i, j | 0 <= i < rows && 0 <= j < cols
        ensures Mat(rows, cols, before + last).At(i, j) == f(i, j)
      {
        AppendRowCell(before, last, rows - 1, cols, i, j);
      }
    }
  }

  /** Two matrices of one shape that agree on every cell are equal. */
  lemma Ext(a: Mat, b: Mat)
    requires a.Valid() && b.Valid() && a.rows == b.rows && a.cols == b.cols
    requires forall i, j :: 0 <= i < a.rows && 0 <= j < a.cols ==> a.At(i, j) == b.At(i, j)
    ensures a == b
  {
    forall k | 0 <= k < |a.data|
      ensures a.data[k] == b.data[k]
    {
      CellOf(a.rows, a.cols, k);
      assert a.At(k / a.cols, k % a.cols) == b.At(k / a.cols, k % a.cols);
    }
  }

  /** `set(i, j, v)` on an in-range cell: cell (i, j) becomes v, every other cell stays. */
  function With(m: Mat, i: int, j: int, v: real): (r: Mat)
    requires m.Valid() && 0 <= i < m.rows && 0 <= j < m.cols
    ensures r.Valid() && r.rows == m.rows && r.cols == m.cols
    ensures r.At(i, j) == v
    ensures forall p, q :: 0 <= p < m.rows && 0 <= q < m.cols && (p, q) != (i, j) ==> r.At(p, q) == m.At(p, q)
  {
    CellBound(m.rows, m.cols, i, j);
    var r := Mat(m.rows, m.cols, m.data[i * m.cols + j := v]);
    forall p, q | 0 <= p < m.rows && 0 <= q < m.cols && (p, q) != (i, j)
      ensures r.At(p, q) == m.At(p, q)
    {
      CellBound(m.rows, m.cols, p, q);
      if p * m.cols + q == i * m.cols + j {
        CellUnique(m.cols, p, q, i, j);
      }
    }
    r
  }

  // ---------------------------------------------------------------------------
  // Rows and columns

  /** `get_row(i)`: the slice data[i*cols : i*cols + cols]. */
  function Row(m: Mat, i: int): (r: seq<real>)
    requires m.Valid() && 0 <= i < m.rows
    ensures |r| == m.cols
    ensures forall j :: 0 <= j < m.cols ==> r[j] == m.At(i, j)
  {
    MulMono(i + 1, m.rows, m.cols);
    m.data[i * m.cols .. i * m.cols + m.cols]
  }

  /** Python's extended slice s[start::step]. */
  function Stride(s: seq<real>, start: nat, step: nat): seq<real>
    requires step > 0
    decreases |s| - start
  {
    if start >= |s| then [] else [s[start]] + Stride(s, start + step, step)
  }

  /** `get_col(j)`: the strided slice data[j::cols]. */
  function Col(m: Mat, j: int): (c: seq<real>)
    requires m.Valid() && 0 <= j < m.cols
    ensures |c| == m.rows
    ensures forall i :: 0 <= i < m.rows ==> c[i] == m.At(i, j)
  {
    StrideColumn(m, 0, j);
    assert ColumnFrom(m, 0, j) == Stride(m.data, j, m.cols);
    Stride(m.data, j, m.cols)
  }

  /** data[i0*cols + j :: cols], the strided slice that starts in row i0. */
  function ColumnFrom(m: Mat, i0: nat, j: nat): seq<real>
    requires m.cols > 0
  {
    Stride(m.data, i0 * m.cols + j, m.cols)
  }

  /** The strided slice starting in row i0 walks down column j. */
  lemma {:induction false} StrideColumn(m: Mat, i0: nat, j: nat)
    requires m.Valid() && j < m.cols && i0 <= m.rows
    ensures |ColumnFrom(m, i0, j)| == m.rows - i0
    ensures forall t :: 0 <= t < m.rows - i0 ==> ColumnFrom(m, i0, j)[t] == m.At(i0 + t, j)
    decreases m.rows - i0
  {
    var start := i0 * m.cols + j;
    if i0 == m.rows {
      assert start >= |m.data|;
    } else {
      CellBound(m.rows, m.cols, i0, j);
      StrideColumn(m, i0 + 1, j);
      assert (i0 + 1) * m.cols + j == start + m.cols;
      var s := ColumnFrom(m, i0, j);
      assert s == [m.data[start]] + ColumnFrom(m, i0 + 1, j);
      forall t | 0 <= t < m.rows - i0
        ensures s[t] == m.At(i0 + t, j)
      {
        if t > 0 {
          assert s[t] == ColumnFrom(m, i0 + 1, j)[t - 1];
        }
      }
    }
  }

  // ---------------------------------------------------------------------------
  // Element-wise operations

  /** A comprehension over one matrix's cells: f applied to every cell. */
  ghost function Map(a: Mat, f: real -> real): (r: Mat)
    requires a.Valid()
    ensures r.Valid() && r.rows == a.rows && r.cols == a.cols
    ensures forall i, j :: 0 <= i < a.rows && 0 <= j < a.cols ==> r.At(i, j) == f(a.At(i, j))
  {
    Gen(a.rows, a.cols, (i, j) => if 0 <= i < a.rows && 0 <= j < a.cols then f(a.At(i, j)) else 0.0)
  }

  /** A comprehension over two matrices' cells zipped together. */
  ghost function ZipWith(a: Mat, b: Mat, f: (real, real) -> real): (r: Mat)
    requires a.Valid() && b.Valid() && a.rows == b.rows && a.cols == b.cols
    ensures r.Valid() && r.rows == a.rows && r.cols == a.cols
    ensures forall i, j :: 0 <= i < a.rows && 0 <= j < a.cols ==> r.At(i, j) == f(a.At(i, j), b.At(i, j))
  {
    Gen(a.rows, a.cols, (i, j) =>
      if 0 <= i < a.rows && 0 <= j < a.cols then f(a.At(i, j), b.At(i, j)) else 0.0)
  }

  /** `add`: cell-by-cell sum of two matrices of one shape. */
  ghost function Sum(a: Mat, b: Mat): (r: Mat)
    requires a.Valid() && b.Valid() && a.rows == b.rows && a.cols == b.cols
    ensures r.Valid() && r.rows == a.rows && r.cols == a.cols
    ensures forall i, j :: 0 <= i < a.rows && 0 <= j < a.cols ==> r.At(i, j) == a.At(i, j) + b.At(i, j)
  {
    ZipWith(a, b, (x, y) => x + y)
  }

  /** `subtract`: cell-by-cell difference of two matrices of one shape. */
  ghost function Difference(a: Mat, b: Mat): (r: Mat)
    requires a.Valid() && b.Valid() && a.rows == b.rows && a.cols == b.cols
    ensures r.Valid() && r.rows == a.rows && r.cols == a.cols
    ensures forall i, j :: 0 <= i < a.rows && 0 <= j < a.cols ==> r.At(i, j) == a.At(i, j) - b.At(i, j)
  {
    ZipWith(a, b, (x, y) => x - y)
  }

  /** `add_const`: the constant added to every cell. */
  ghost function AddConst(a: Mat, c: real): (r: Mat)
    requires a.Valid()
    ensures r.Valid() && r.rows == a.rows && r.cols == a.cols
    ensures forall i, j :: 0 <= i < a.rows && 0 <= j < a.cols ==> r.At(i, j) == a.At(i, j) + c
  {
    Map(a, x => x + c)
  }

  /** `scale`: every cell multiplied by the scalar. */
  ghost function Scale(a: Mat, c: real): (r: Mat)
    requires a.Valid()
    ensures r.Valid() && r.rows == a.rows && r.cols == a.cols
    ensures forall i, j :: 0 <= i < a.rows && 0 <= j < a.cols ==> r.At(i, j) == a.At(i, j) * c
  {
    Map(a, x => x * c)
  }

  /** `divide`: every cell divided by a non-zero constant. */
  ghost function Quotient(a: Mat, c: real): (r: Mat)
    requires a.Valid() && c != 0.0
    ensures r.Valid() && r.rows == a.rows && r.cols == a.cols
    ensures forall i, j :: 0 <= i < a.rows && 0 <= j < a.cols ==> r.At(i, j) * c == a.At(i, j)
  {
    Map(a, x => x / c)
  }

  /** `int_divide`: Python's `//`, which rounds the quotient down. */
  ghost function FloorQuotient(a: Mat, c: real): (r: Mat)
    requires a.Valid() && c != 0.0
    ensures r.Valid() && r.rows == a.rows && r.cols == a.cols
    ensures forall i, j :: 0 <= i < a.rows && 0 <= j < a.cols ==>
      r.At(i, j) == (r.At(i, j).Floor as real) && r.At(i, j) <= a.At(i, j) / c < r.At(i, j) + 1.0
  {
    Map(a, x => (x / c).Floor as real)
  }

  // ---------------------------------------------------------------------------
  // Product and transpose

  /** `sum([a * b for a, b in zip(r, c)])` */
  function SumProducts(r: seq<real>, c: seq<real>): real
    decreases |r|
  {
    if |r| == 0 || |c| == 0 then 0.0 else r[0] * c[0] + SumProducts(r[1..], c[1..])
  }

  /** f(lo) + f(lo + 1) + ... + f(hi - 1) */
  function Sigma(lo: int, hi: int, f: int -> real): real
    decreases hi - lo
  {
    if lo >= hi then 0.0 else f(lo) + Sigma(lo + 1, hi, f)
  }

  /** Whether a * b is defined and (i, j) is a cell of it. */
  predicate ProductCell(a: Mat, b: Mat, i: int, j: int) {
    a.Valid() && b.Valid() && a.cols == b.rows && 0 <= i < a.rows && 0 <= j < b.cols
  }

  /** a[i, k] * b[k, j], 0 outside the product. */
  function Term(a: Mat, b: Mat, i: int, j: int, k: int): real {
    if ProductCell(a, b, i, j) && 0 <= k < a.cols then a.At(i, k) * b.At(k, j) else 0.0
  }

  /** k |-> Term(a, b, i, j, k) */
  function Terms(a: Mat, b: Mat, i: int, j: int): int -> real {
    k => Term(a, b, i, j, k)
  }

  /** Zipping row i with column j and summing the products is the textbook sum. */
  lemma {:induction false} SumProductsIsSigma(a: Mat, b: Mat, i: int, j: int, k0: nat)
    requires a.Valid() && b.Valid() && a.cols == b.rows
    requires 0 <= i < a.rows && 0 <= j < b.cols && k0 <= a.cols
    ensures SumProducts(Row(a, i)[k0..], Col(b, j)[k0..]) == Sigma(k0, a.cols, Terms(a, b, i, j))
    decreases a.cols - k0
  {
    var r, c := Row(a, i)[k0..], Col(b, j)[k0..];
    if k0 < a.cols {
      SumProductsIsSigma(a, b, i, j, k0 + 1);
      assert r[1..] == Row(a, i)[k0 + 1..];
      assert c[1..] == Col(b, j)[k0 + 1..];
    }
  }

  /** `dot`: the matrix product, cell (i, j) being row i zipped with column j and summed.
      The zip-and-sum matrix is the witness; the product is characterised by the textbook
      sum it equals, so proofs about it never unfold the zips. */
  ghost function Product(a: Mat, b: Mat): (r: Mat)
    requires a.Valid() && b.Valid() && a.cols == b.rows
    ensures r.Valid() && r.rows == a.rows && r.cols == b.cols
    ensures forall i, j :: 0 <= i < a.rows && 0 <= j < b.cols ==> r.At(i, j) == Sigma(0, a.cols, Terms(a, b, i, j))
  {
    var w := Gen(a.rows, b.cols, (i, j) =>
      if 0 <= i < a.rows && 0 <= j < b.cols then SumProducts(Row(a, i), Col(b, j)) else 0.0);
    ProductCells(a, b, w);
    var r: Mat :| r.Valid() && r.rows == a.rows && r.cols == b.cols &&
      forall i, j :: 0 <= i < a.rows && 0 <= j < b.cols ==> r.At(i, j) == Sigma(0, a.cols, Terms(a, b, i, j));
    r
  }

  lemma ProductCells(a: Mat, b: Mat, r: Mat)
    requires a.Valid() && b.Valid() && a.cols == b.rows
    requires r.Valid() && r.rows == a.rows && r.cols == b.cols
    requires forall i, j :: 0 <= i < a.rows && 0 <= j < b.cols ==> r.At(i, j) == SumProducts(Row(a, i), Col(b, j))
    ensures forall i, j :: 0 <= i < a.rows && 0 <= j < b.cols ==> r.At(i, j) == Sigma(0, a.cols, Terms(a, b, i, j))
  {
    forall i, j | 0 <= i < a.rows && 0 <= j < b.cols
      ensures r.At(i, j) == Sigma(0, a.cols, Terms(a, b, i, j))
    {
      SumProductsIsSigma(a, b, i, j, 0);
      assert Row(a, i)[0..] == Row(a, i) && Col(b, j)[0..] == Col(b, j);
    }
  }

  /** `transpose`: cell (i, j) of the result is cell (j, i) of the input. */
  ghost function Transpose(m: Mat): (r: Mat)
    requires m.Valid()
    ensures r.Valid() && r.rows == m.cols && r.cols == m.rows
    ensures forall i, j :: 0 <= i < m.cols && 0 <= j < m.rows ==> r.At(i, j) == m.At(j, i)
  {
    Gen(m.cols, m.rows, (i, j) => if 0 <= i < m.cols && 0 <= j < m.rows then m.At(j, i) else 0.0)
  }

  // ---------------------------------------------------------------------------
  // Sub-matrices

  /** The index in the full matrix of index i of a matrix with index s removed. */
  function Skip(i: int, s: int): int {
    if i < s then i else i + 1
  }

  /** The cells of row `row` for the columns below `upto`, column `col` left out, in order:
      what the inner loop of get_sub_matrix appends. */
  function RowWithout(m: Mat, row: int, col: int, upto: nat): seq<real>
    requires m.Valid() && 0 <= row < m.rows && upto <= m.cols
  {
    if upto == 0 then []
    else RowWithout(m, row, col, upto - 1) + (if upto - 1 == col then [] else [m.At(row, upto - 1)])
  }

  /** The rows below `upto`, row `skipRow` left out, each without column `skipCol`:
      the list get_sub_matrix builds by appending. */
  function KeptCells(m: Mat, skipRow: int, skipCol: int, upto: nat): seq<real>
    requires m.Valid() && upto <= m.rows
  {
    if upto == 0 then []
    else KeptCells(m, skipRow, skipCol, upto - 1) +
         (if upto - 1 == skipRow then [] else RowWithout(m, upto - 1, skipCol, m.cols))
  }

  lemma {:induction false} RowWithoutCells(m: Mat, row: int, col: int, upto: nat)
    requires m.Valid() && 0 <= row < m.rows && 0 <= col < m.cols && upto <= m.cols
    ensures |RowWithout(m, row, col, upto)| == if col < upto then upto - 1 else upto
    ensures forall t :: 0 <= t < |RowWithout(m, row, col, upto)| ==>
      RowWithout(m, row, col, upto)[t] == m.At(row, Skip(t, col))
  {
    if upto > 0 {
      RowWithoutCells(m, row, col, upto - 1);
    }
  }

  /** The number of rows below `upto` other than `skipRow`. */
  function KeptRows(skipRow: int, upto: nat): nat {
    if 0 <= skipRow < upto then upto - 1 else upto
  }

  lemma {:induction false} KeptCellsCells(m: Mat, skipRow: int, skipCol: int, upto: nat)
    requires m.Valid() && 0 <= skipRow < m.rows && 0 <= skipCol < m.cols && upto <= m.rows
    ensures |KeptCells(m, skipRow, skipCol, upto)| == KeptRows(skipRow, upto) * (m.cols - 1)
    ensures forall i, j :: 0 <= i < KeptRows(skipRow, upto) && 0 <= j < m.cols - 1 ==>
      Mat(KeptRows(skipRow, upto), m.cols - 1, KeptCells(m, skipRow, skipCol, upto)).At(i, j)
        == m.At(Skip(i, skipRow), Skip(j, skipCol))
  {
    if upto > 0 {
      KeptCellsCells(m, skipRow, skipCol, upto - 1);
      if upto - 1 != skipRow {
        KeptCellsStep(m, skipRow, skipCol, upto);
      } else {
        assert KeptCells(m, skipRow, skipCol, upto) == KeptCells(m, skipRow, skipCol, upto - 1);
        assert KeptRows(skipRow, upto) == KeptRows(skipRow, upto - 1);
      }
    }
  }

  /** The step of KeptCellsCells that appends one kept row. */
  lemma KeptCellsStep(m: Mat, skipRow: int, skipCol: int, upto: nat)
    requires m.Valid() && 0 <= skipRow < m.rows && 0 <= skipCol < m.cols && 0 < upto <= m.rows
    requires upto - 1 != skipRow
    requires |KeptCells(m, skipRow, skipCol, upto - 1)| == KeptRows(skipRow, upto - 1) * (m.cols - 1)
    requires forall i, j :: 0 <= i < KeptRows(skipRow, upto - 1) && 0 <= j < m.cols - 1 ==>
      Mat(KeptRows(skipRow, upto - 1), m.cols - 1, KeptCells(m, skipRow, skipCol, upto - 1)).At(i, j)
        == m.At(Skip(i, skipRow), Skip(j, skipCol))
    ensures |KeptCells(m, skipRow, skipCol, upto)| == KeptRows(skipRow, upto) * (m.cols - 1)
    ensures forall i, j :: 0 <= i < KeptRows(skipRow, upto) && 0 <= j < m.cols - 1 ==>
      Mat(KeptRows(skipRow, upto), m.cols - 1, KeptCells(m, skipRow, skipCol, upto)).At(i, j)
        == m.At(Skip(i, skipRow), Skip(j, skipCol))
  {
    var w := m.cols - 1;
    var n := KeptRows(skipRow, upto - 1);
    var before := KeptCells(m, skipRow, skipCol, upto - 1);
    var last := RowWithout(m, upto - 1, skipCol, m.cols);
    RowWithoutCells(m, upto - 1, skipCol, m.cols);
    assert KeptCells(m, skipRow, skipCol, upto) == before + last;
    assert KeptRows(skipRow, upto) == n + 1;
    AppendRowLength(before, last, n, w);
    forall i, j | 0 <= i < n + 1 && 0 <= j < w
      ensures Mat(n + 1, w, before + last).At(i, j) == m.At(Skip(i, skipRow), Skip(j, skipCol))
    {
      AppendRowCell(before, last, n, w, i, j);
      if i == n {
        assert Skip(i, skipRow) == upto - 1;
      }
    }
  }

  lemma AppendRowLength(before: seq<real>, last: seq<real>, n: nat, w: nat)
    requires |before| == n * w && |last| == w
    ensures |before + last| == (n + 1) * w
  {
  }

  /** Appending one row of w cells to an n x w matrix keeps the old cells and adds row n. */
  lemma AppendRowCell(before: seq<real>, last: seq<real>, n: nat, w: nat, i: int, j: int)
    requires |before| == n * w && |last| == w
    requires 0 <= i < n + 1 && 0 <= j < w
    ensures Mat(n + 1, w, before + last).Valid()
    ensures Mat(n + 1, w, before + last).At(i, j) == if i < n then Mat(n, w, before).At(i, j) else last[j]
  {
    AppendRowLength(before, last, n, w);
    var M := Mat(n + 1, w, before + last);
    if i < n {
      CellBound(n, w, i, j);
      assert M.At(i, j) == (before + last)[i * w + j];
    } else {
      assert i * w + j == |before| + j;
    }
  }

  /** `get_sub_matrix(row, col)`: row `row` and column `col` removed, the rest in order.
      The appended list is the witness; the minor is characterised by its cells, so
      proofs about determinants never unfold the appends. */
  ghost function SubMatrix(m: Mat, row: int, col: int): (r: Mat)
    requires m.Valid() && 0 <= row < m.rows && 0 <= col < m.cols
    ensures r.Valid() && r.rows == m.rows - 1 && r.cols == m.cols - 1
    ensures forall i, j :: 0 <= i < r.rows && 0 <= j < r.cols ==> r.At(i, j) == m.At(Skip(i, row), Skip(j, col))
  {
    KeptCellsCells(m, row, col, m.rows);
    var w := Mat(m.rows - 1, m.cols - 1, KeptCells(m, row, col, m.rows));
    assert w.Valid() && w.rows == m.rows - 1 && w.cols == m.cols - 1 &&
      forall i, j :: 0 <= i < w.rows && 0 <= j < w.cols ==> w.At(i, j) == m.At(Skip(i, row), Skip(j, col));
    var r: Mat :| r.Valid() && r.rows == m.rows - 1 && r.cols == m.cols - 1 &&
      forall i, j :: 0 <= i < r.rows && 0 <= j < r.cols ==> r.At(i, j) == m.At(Skip(i, row), Skip(j, col));
    r
  }

  // ---------------------------------------------------------------------------
  // Determinant and inverse

  /** `(-1) ** k` */
  function Sign(k: nat): real {
    if k % 2 == 0 then 1.0 else -1.0
  }

  /** The determinant of a non-empty square matrix, computed as get_determinant does. */
  ghost function Det(m: Mat): real
    requires m.Valid() && m.rows == m.cols && m.rows >= 1
    decreases m.rows, 1
  {
    if m.rows == 1 then m.data[0]
    else if m.rows == 2 then m.data[0] * m.data[3] - m.data[1] * m.data[2]
    else Expansion(m, m.cols)
  }

  /** The first n terms of the expansion along row 0 with alternating signs. */
  ghost function Expansion(m: Mat, n: nat): real
    requires m.Valid() && m.rows == m.cols && m.rows >= 2 && n <= m.cols
    decreases m.rows, 0, n
  {
    if n == 0 then 0.0
    else Expansion(m, n - 1) + ExpansionTerm(m, n - 1)
  }

  /** Term k of the expansion: sign, cell (0, k) and the determinant of its minor,
      multiplied in that order. */
  ghost function ExpansionTerm(m: Mat, k: nat): real
    requires m.Valid() && m.rows == m.cols && m.rows >= 2 && k < m.cols
    decreases m.rows, 0, 0
  {
    Sign(k) * m.At(0, k) * Det(SubMatrix(m, 0, k))
  }

  /** `get_determinant()`, with its failures: SizeMismatch on a non-square matrix (the
      documented MatrixSizeMismatchError; `DeterminantAsWritten` is the code as written),
      and IndexOutOfBounds on the empty matrix, whose `get_row(0)` fails. */
  ghost function Determinant(m: Mat): (r: Result<real>)
    requires m.Valid()
    ensures r.Ok? <==> m.rows == m.cols && m.rows >= 1
    ensures m.rows != m.cols ==> r == Err(SizeMismatch)
    ensures m.rows == m.cols == 0 ==> r == Err(IndexOutOfBounds)
    ensures r.Ok? ==> r.value == Det(m)
  {
    if m.rows != m.cols then Err(SizeMismatch)
    else if m.rows == 0 then Err(IndexOutOfBounds)
    else Ok(Det(m))
  }

  /** The matrix of cofactors: each cell the determinant of its minor with sign (-1)^(i+j). */
  ghost function Cofactors(m: Mat): (r: Mat)
    requires m.Valid() && m.rows == m.cols && m.rows >= 2
    ensures r.Valid() && r.rows == m.rows && r.cols == m.cols
    ensures forall i, j :: 0 <= i < m.rows && 0 <= j < m.cols ==>
      r.At(i, j) == Det(SubMatrix(m, i, j)) * Sign(i + j)
  {
    Gen(m.rows, m.cols, (i, j) => Cofactor(m, i, j))
  }

  /** One cell of the cofactor matrix, 0 outside the matrix. */
  ghost function Cofactor(m: Mat, i: int, j: int): real
    requires m.Valid() && m.rows == m.cols && m.rows >= 2
  {
    if 0 <= i < m.rows && 0 <= j < m.cols then Det(SubMatrix(m, i, j)) * Sign(i + j) else 0.0
  }

  /** `inverse()`: the transposed cofactor matrix scaled by 1 / det. The failures come in
      the order the code meets them: a non-square matrix fails on the determinant of its
      first minor (or, with no cells, on its own), with the documented size error
      (`InverseAsWritten` is the code as written); a 1 x 1 matrix fails because its minor
      is empty; a zero determinant raises NoInverse. */
  ghost function Inverse(m: Mat): (r: Result<Mat>)
    requires m.Valid()
    ensures r.Ok? <==> m.rows == m.cols && m.rows >= 2 && Det(m) != 0.0
    ensures m.rows != m.cols ==> r == Err(SizeMismatch)
    ensures m.rows == m.cols && m.rows <= 1 ==> r == Err(IndexOutOfBounds)
    ensures m.rows == m.cols && m.rows >= 2 && Det(m) == 0.0 ==> r == Err(NoInverse)
    ensures r.Ok? ==> r.value.rows == m.rows && r.value.cols == m.cols
  {
    if m.rows != m.cols then Err(SizeMismatch)
    else if m.rows <= 1 then Err(IndexOutOfBounds)
    else if Det(m) == 0.0 then Err(NoInverse)
    else Ok(Scale(Transpose(Cofactors(m)), 1.0 / Det(m)))
  }

  /** `get_determinant()` as written: the non-square check formats its message with a
      single `%s` and the two-value `dimensions` tuple, so the `%` raises TypeError before
      the size error is built. Square matrices take the same path as `Determinant`. */
  ghost function DeterminantAsWritten(m: Mat): (r: Result<real>)
    requires m.Valid()
    ensures m.rows != m.cols ==> r == Err(FormatArgs)
    ensures m.rows == m.cols ==> r == Determinant(m)
  {
    if m.rows != m.cols then Err(FormatArgs) else Determinant(m)
  }

  /** `inverse()` as written: for a non-square matrix the first determinant it takes is of
      a non-square matrix too (its first minor, or itself when it has no cells), and that
      determinant's TypeError is what `inverse()` raises. */
  ghost function InverseAsWritten(m: Mat): (r: Result<Mat>)
    requires m.Valid()
    ensures m.rows != m.cols ==> r == Err(FormatArgs)
    ensures m.rows == m.cols ==> r == Inverse(m)
  {
    if m.rows != m.cols then
      var d := if m.rows >= 1 && m.cols >= 1 then DeterminantAsWritten(SubMatrix(m, 0, 0))
               else DeterminantAsWritten(m);
      Err(d.error)
    else Inverse(m)
  }

  /** The discrepancy: as written, every non-square matrix makes `get_determinant()` and
      `inverse()` raise TypeError, where the documented error is MatrixSizeMismatchError;
      on square matrices the code as written and the corrected reading agree. */
  lemma NonSquareAsWritten(m: Mat)
    requires m.Valid()
    ensures m.rows != m.cols ==> DeterminantAsWritten(m) == Err(FormatArgs) && Determinant(m) == Err(SizeMismatch)
    ensures m.rows != m.cols ==> InverseAsWritten(m) == Err(FormatArgs) && Inverse(m) == Err(SizeMismatch)
    ensures m.rows == m.cols ==> DeterminantAsWritten(m) == Determinant(m) && InverseAsWritten(m) == Inverse(m)
  {
  }

  /** The 2 x 3 zero matrix: `get_determinant()` and `inverse()` raise TypeError as written. */
  lemma NonSquareExample()
    ensures DeterminantAsWritten(Mat(2, 3, Zeros(6))) == Err(FormatArgs)
    ensures InverseAsWritten(Mat(2, 3, Zeros(6))) == Err(FormatArgs)
    ensures Inverse(Mat(2, 3, Zeros(6))) == Err(SizeMismatch)
  {
    NonSquareAsWritten(Mat(2, 3, Zeros(6)));
  }

  // ---------------------------------------------------------------------------
  // Identity and padded columns

  /** `[0] * n` */
  function Zeros(n: int): seq<real>
    decreases n
  {
    if n <= 0 then [] else [0.0] + Zeros(n - 1)
  }

  /** `s * t`: the list repeated t times (empty for t <= 0). */
  function Repeat(s: seq<real>, t: int): seq<real>
    decreases t
  {
    if t <= 0 then [] else s + Repeat(s, t - 1)
  }

  /** `[1] + ([0] * size + [1]) * (size - 1)` */
  function IdentityData(size: nat): seq<real> {
    [1.0] + Repeat(Zeros(size) + [1.0], size - 1)
  }

  /** `identity_matrix(size)`: `Matrix(size, size, IdentityData(size))`, which fails the
      size check for size 0, where the list still holds the leading 1. */
  function IdentityMatrix(size: nat): (r: Result<Mat>)
    ensures r.Ok? <==> size >= 1
    ensures r.Err? ==> r.error == SizeMismatch
    ensures r.Ok? ==> r.value.Valid() && r.value.rows == size && r.value.cols == size
    ensures r.Ok? ==> forall i, j :: 0 <= i < size && 0 <= j < size ==>
      r.value.At(i, j) == if i == j then 1.0 else 0.0
  {
    var data := IdentityData(size);
    IdentityDataCells(size);
    if |data| != size * size then Err(SizeMismatch) else Ok(Mat(size, size, data))
  }

  lemma {:induction false} ZerosCells(n: nat)
    ensures |Zeros(n)| == n && forall k :: 0 <= k < n ==> Zeros(n)[k] == 0.0
  {
    if n > 0 {
      ZerosCells(n - 1);
    }
  }

  /** `s * t` read as a t x |s| matrix: every row is s. */
  lemma {:induction false} RepeatCells(s: seq<real>, t: nat)
    ensures |Repeat(s, t)| == t * |s|
    ensures forall q, r :: 0 <= q < t && 0 <= r < |s| ==> Mat(t, |s|, Repeat(s, t)).At(q, r) == s[r]
  {
    if t > 0 {
      RepeatCells(s, t - 1);
      var rest := Repeat(s, t - 1);
      assert Repeat(s, t) == s + rest;
      var M, R := Mat(t, |s|, Repeat(s, t)), Mat(t - 1, |s|, rest);
      forall q, r | 0 <= q < t && 0 <= r < |s|
        ensures M.At(q, r) == s[r]
      {
        if q > 0 {
          CellBound(t - 1, |s|, q - 1, r);
          assert q * |s| + r == |s| + ((q - 1) * |s| + r);
          assert M.At(q, r) == rest[(q - 1) * |s| + r] == R.At(q - 1, r);
        }
      }
    }
  }

  lemma IdentityDataCells(size: nat)
    ensures size == 0 ==> |IdentityData(size)| == 1
    ensures size >= 1 ==> |IdentityData(size)| == size * size
    ensures size >= 1 ==> forall i, j :: 0 <= i < size && 0 <= j < size ==>
      Mat(size, size, IdentityData(size)).At(i, j) == if i == j then 1.0 else 0.0
  {
    if size >= 1 {
      IdentityDataLength(size);
      forall i, j | 0 <= i < size && 0 <= j < size
        ensures Mat(size, size, IdentityData(size)).At(i, j) == if i == j then 1.0 else 0.0
      {
        IdentityDataCell(size, i, j);
      }
    }
  }

  lemma IdentityDataLength(n: nat)
    requires n >= 1
    ensures |IdentityData(n)| == n * n
  {
    ZerosCells(n);
    RepeatCells(Zeros(n) + [1.0], n - 1);
    assert |IdentityData(n)| == 1 + (n - 1) * (n + 1);
  }

  /** Flat index i*n + j, past the leading 1, falls in block q at offset r, where a block is
      n zeros and a 1: the offset is n exactly on the diagonal. */
  lemma IdentityBlockOf(n: nat, i: int, j: int) returns (q: int, r: int)
    requires n >= 1 && 0 <= i < n && 0 <= j < n && i * n + j > 0
    ensures i * n + j - 1 == q * (n + 1) + r
    ensures 0 <= q < n - 1 && 0 <= r < n + 1
    ensures r == n <==> i == j
  {
    if i == j {
      q, r := i - 1, n;
    } else if i < j {
      q, r := i, j - i - 1;
    } else {
      q, r := i - 1, n + j - i;
    }
  }

  lemma IdentityDataCell(n: nat, i: int, j: int)
    requires n >= 1 && 0 <= i < n && 0 <= j < n
    ensures |IdentityData(n)| == n * n
    ensures Mat(n, n, IdentityData(n)).At(i, j) == if i == j then 1.0 else 0.0
  {
    IdentityDataLength(n);
    var k := i * n + j;
    IdentityDataFlat(n, i, j);
    if k == 0 {
      assert i == 0 && j == 0 by {
        if i > 0 {
          MulMono(1, i, n);
        }
      }
    } else {
      var q, r := IdentityBlockOf(n, i, j);
      BlockCell(n, q, r);
      IdentityDataTail(n, k);
    }
  }

  lemma IdentityDataFlat(n: nat, i: int, j: int)
    requires n >= 1 && 0 <= i < n && 0 <= j < n && |IdentityData(n)| == n * n
    ensures 0 <= i * n + j < n * n
    ensures Mat(n, n, IdentityData(n)).At(i, j) == IdentityData(n)[i * n + j]
  {
    CellBound(n, n, i, j);
  }

  /** Past the leading 1, the identity's list is the repeated block of n zeros and a 1. */
  lemma IdentityDataTail(n: nat, k: int)
    requires n >= 1 && 0 < k < |IdentityData(n)|
    ensures IdentityData(n)[k] == Repeat(Zeros(n) + [1.0], n - 1)[k - 1]
  {
  }

  /** Offset r of block q of the repeated blocks is 1 exactly at the block's end. */
  lemma BlockCell(n: nat, q: int, r: int)
    requires n >= 1 && 0 <= q < n - 1 && 0 <= r < n + 1
    ensures 0 <= q * (n + 1) + r < |Repeat(Zeros(n) + [1.0], n - 1)|
    ensures Repeat(Zeros(n) + [1.0], n - 1)[q * (n + 1) + r] == if r == n then 1.0 else 0.0
  {
    BlockValue(n, r);
    RepeatAt(Zeros(n) + [1.0], n - 1, q, r);
  }

  /** A block is n zeros followed by a 1. */
  lemma BlockValue(n: nat, r: int)
    requires 0 <= r < n + 1
    ensures |Zeros(n) + [1.0]| == n + 1
    ensures (Zeros(n) + [1.0])[r] == if r == n then 1.0 else 0.0
  {
    ZerosCells(n);
  }

  /** Offset r of copy q of s in `s * t`. */
  lemma RepeatAt(s: seq<real>, t: nat, q: int, r: int)
    requires 0 <= q < t && 0 <= r < |s|
    ensures 0 <= q * |s| + r < |Repeat(s, t)|
    ensures Repeat(s, t)[q * |s| + r] == s[r]
  {
    RepeatCells(s, t);
    CellBound(t, |s|, q, r);
    assert Mat(t, |s|, Repeat(s, t)).At(q, r) == s[r];
  }

  /** `[v] * n` */
  function Fill(n: nat, v: real): (s: seq<real>)
    ensures |s| == n && forall k :: 0 <= k < n ==> s[k] == v
  {
    seq(n, _ => v)
  }

  /** `from_point_with_padding(pt, pad_size, pad_value)`: a single column holding the
      point's components followed by `pad_size` copies of `pad_value`. */
  function PaddedColumn(p: Point, padSize: nat := 1, padValue: real := 1.0): (r: Mat)
    requires p.Valid()
    ensures r.Valid() && r.rows == p.ndims + padSize && r.cols == 1
    ensures forall i :: 0 <= i < p.ndims ==> r.At(i, 0) == p.vals[i]
    ensures forall i :: p.ndims <= i < r.rows ==> r.At(i, 0) == padValue
  {
    Mat(p.ndims + padSize, 1, p.vals + Fill(padSize, padValue))
  }

  /** `from_point_with_padding` as written: it calls `pt.as_list()`, an attribute no Point
      defines, so the lookup raises AttributeError before any matrix is built. */
  function PaddedColumnAsWritten(p: Point, padSize: nat := 1, padValue: real := 1.0): (r: Result<Mat>)
    requires p.Valid()
    ensures r == Err(MissingAttribute)
  {
    Err(MissingAttribute)
  }

  /** `from_point(pt)` builds its column from the same `pt.as_list()` call, so as written
      it fails for every point; the corrected column is exactly the point's components. */
  lemma FromPointAsWrittenFails(p: Point)
    requires p.Valid()
    ensures PaddedColumnAsWritten(p, 0) == Err(MissingAttribute)
    ensures PaddedColumn(p, 0) == Mat(p.ndims, 1, p.vals)
  {
    assert p.vals + Fill(0, 1.0) == p.vals;
  }
}
