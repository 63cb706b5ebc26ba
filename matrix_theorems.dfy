/** What the matrix operations of pythonista3d/matrix.py guarantee together:
    the inverse of each element-wise operation, the transpose laws, the identity
    matrix as a unit of the product, associativity of the product, the
    determinant of the identity and the defining law of the inverse. */
module MatrixTheorems {
  import opened Errors
  import opened MatrixSpec

  // ---------------------------------------------------------------------------
  // Finite sums

  lemma {:induction false} SigmaExt(lo: int, hi: int, f: int -> real, g: int -> real)
    requires forall k :: lo <= k < hi ==> f(k) == g(k)
    ensures Sigma(lo, hi, f) == Sigma(lo, hi, g)
    decreases hi - lo
  {
    if lo < hi {
      SigmaExt(lo + 1, hi, f, g);
    }
  }

  lemma {:induction false} SigmaAdd(lo: int, hi: int, f: int -> real, g: int -> real, h: int -> real)
    requires forall k :: lo <= k < hi ==> h(k) == f(k) + g(k)
    ensures Sigma(lo, hi, h) == Sigma(lo, hi, f) + Sigma(lo, hi, g)
    decreases hi - lo
  {
    if lo < hi {
      SigmaAdd(lo + 1, hi, f, g, h);
    }
  }

  /** Every term of h in [lo, hi) is the matching term of f times c. */
  predicate ScaledTerms(lo: int, hi: int, c: real, f: int -> real, h: int -> real) {
    forall k :: lo <= k < hi ==> h(k) == f(k) * c
  }

  lemma {:induction false} SigmaScale(lo: int, hi: int, c: real, f: int -> real, h: int -> real)
    requires ScaledTerms(lo, hi, c, f, h)
    ensures Sigma(lo, hi, h) == Sigma(lo, hi, f) * c
    decreases hi - lo
  {
    if lo < hi {
      SigmaScale(lo + 1, hi, c, f, h);
    }
  }

  /** A sum whose terms are all 0 except possibly the one at index t. */
  lemma {:induction false} SigmaSingle(lo: int, hi: int, t: int, f: int -> real)
    requires forall k :: lo <= k < hi && k != t ==> f(k) == 0.0
    ensures Sigma(lo, hi, f) == if lo <= t < hi then f(t) else 0.0
    decreases hi - lo
  {
    if lo < hi {
      SigmaSingle(lo + 1, hi, t, f);
    }
  }

  /** l |-> f(k, l) */
  function RowOf(f: (int, int) -> real, k: int): int -> real {
    l => f(k, l)
  }

  /** k |-> f(k, l) */
  function ColOf(f: (int, int) -> real, l: int): int -> real {
    k => f(k, l)
  }

  /** k |-> the sum over l in [0, m) of f(k, l) */
  function RowSums(f: (int, int) -> real, m: int): int -> real {
    k => Sigma(0, m, RowOf(f, k))
  }

  /** l |-> the sum over k in [lo, n) of f(k, l) */
  function ColSums(f: (int, int) -> real, lo: int, n: int): int -> real {
    l => Sigma(lo, n, ColOf(f, l))
  }

  /** A double sum may be taken in either order. */
  lemma {:induction false} SigmaSwap(lo: int, n: int, m: int, f: (int, int) -> real)
    ensures Sigma(lo, n, RowSums(f, m)) == Sigma(0, m, ColSums(f, lo, n))
    decreases n - lo
  {
    if lo >= n {
      SigmaSingle(0, m, -1, ColSums(f, lo, n));
    } else {
      SigmaSwap(lo + 1, n, m, f);
      SigmaAdd(0, m, RowOf(f, lo), ColSums(f, lo + 1, n), ColSums(f, lo, n));
    }
  }

  // ---------------------------------------------------------------------------
  // The product as a sum

  /** Cell (i, j) of a * b is the sum over k of a[i, k] * b[k, j]. */
  lemma ProductAt(a: Mat, b: Mat, i: int, j: int)
    requires ProductCell(a, b, i, j)
    ensures Product(a, b).At(i, j) == Sigma(0, a.cols, Terms(a, b, i, j))
  {
  }

  // ---------------------------------------------------------------------------
  // Element-wise operations and their inverses

  /** `subtract` undoes `add`. */
  lemma SumThenDifference(a: Mat, b: Mat)
    requires a.Valid() && b.Valid() && a.rows == b.rows && a.cols == b.cols
    ensures Difference(Sum(a, b), b) == a
  {
    Ext(Difference(Sum(a, b), b), a);
  }

  /** `add` is commutative, so `m1 + m2` and `m2 + m1` agree. */
  lemma SumCommutes(a: Mat, b: Mat)
    requires a.Valid() && b.Valid() && a.rows == b.rows && a.cols == b.cols
    ensures Sum(a, b) == Sum(b, a)
  {
    Ext(Sum(a, b), Sum(b, a));
  }

  /** `add_const(-c)` undoes `add_const(c)`. */
  lemma AddConstInverse(a: Mat, c: real)
    requires a.Valid()
    ensures AddConst(AddConst(a, c), -c) == a
  {
    Ext(AddConst(AddConst(a, c), -c), a);
  }

  /** `scale(1 / c)` undoes `scale(c)` for c != 0. */
  lemma ScaleInverse(a: Mat, c: real)
    requires a.Valid() && c != 0.0
    ensures Scale(Scale(a, c), 1.0 / c) == a
  {
    var r := Scale(Scale(a, c), 1.0 / c);
    forall i, j | 0 <= i < a.rows && 0 <= j < a.cols
      ensures r.At(i, j) == a.At(i, j)
    {
      assert r.At(i, j) == a.At(i, j) * (c * (1.0 / c));
    }
    Ext(r, a);
  }

  /** `divide(c)` is `scale(1 / c)`. */
  lemma QuotientIsScale(a: Mat, c: real)
    requires a.Valid() && c != 0.0
    ensures Quotient(a, c) == Scale(a, 1.0 / c)
  {
    var q, s := Quotient(a, c), Scale(a, 1.0 / c);
    forall i, j | 0 <= i < a.rows && 0 <= j < a.cols
      ensures q.At(i, j) == s.At(i, j)
    {
      assert q.At(i, j) * c == a.At(i, j);
      assert q.At(i, j) == q.At(i, j) * c * (1.0 / c);
    }
    Ext(q, s);
  }

  /** `negative()`, which is `scale(-1)`, is the additive inverse: m + (-m) is all zeros. */
  lemma NegativeCancels(a: Mat)
    requires a.Valid()
    ensures Sum(a, Scale(a, -1.0)) == Mat(a.rows, a.cols, Fill(a.rows * a.cols, 0.0))
  {
    var z := Mat(a.rows, a.cols, Fill(a.rows * a.cols, 0.0));
    forall i, j | 0 <= i < a.rows && 0 <= j < a.cols
      ensures Sum(a, Scale(a, -1.0)).At(i, j) == z.At(i, j)
    {
      CellBound(a.rows, a.cols, i, j);
    }
    Ext(Sum(a, Scale(a, -1.0)), z);
  }

  // ---------------------------------------------------------------------------
  // Transpose

  lemma TransposeTwice(m: Mat)
    requires m.Valid()
    ensures Transpose(Transpose(m)) == m
  {
    Ext(Transpose(Transpose(m)), m);
  }

  /** `get_col(j)` is row j of the transpose. */
  lemma ColIsTransposedRow(m: Mat, j: int)
    requires m.Valid() && 0 <= j < m.cols
    ensures Col(m, j) == Row(Transpose(m), j)
  {
  }

  /** (a * b)^T == b^T * a^T */
  lemma TransposeProduct(a: Mat, b: Mat)
    requires a.Valid() && b.Valid() && a.cols == b.rows
    ensures Transpose(Product(a, b)) == Product(Transpose(b), Transpose(a))
  {
    var l, r := Transpose(Product(a, b)), Product(Transpose(b), Transpose(a));
    forall i, j | 0 <= i < b.cols && 0 <= j < a.rows
      ensures l.At(i, j) == r.At(i, j)
    {
      TransposeProductAt(a, b, i, j);
    }
    Ext(l, r);
  }

  lemma TransposeProductAt(a: Mat, b: Mat, i: int, j: int)
    requires a.Valid() && b.Valid() && a.cols == b.rows
    requires 0 <= i < b.cols && 0 <= j < a.rows
    ensures Product(a, b).At(j, i) == Product(Transpose(b), Transpose(a)).At(i, j)
  {
    var bt, at := Transpose(b), Transpose(a);
    TransposedTerms(a, b, i, j);
    SigmaExt(0, a.cols, Terms(a, b, j, i), Terms(bt, at, i, j));
    ProductAt(a, b, j, i);
    ProductAt(bt, at, i, j);
  }

  lemma TransposedTerms(a: Mat, b: Mat, i: int, j: int)
    requires a.Valid() && b.Valid() && a.cols == b.rows
    requires 0 <= i < b.cols && 0 <= j < a.rows
    ensures forall k :: 0 <= k < a.cols ==> Terms(a, b, j, i)(k) == Terms(Transpose(b), Transpose(a), i, j)(k)
  {
    forall k | 0 <= k < a.cols
      ensures Terms(a, b, j, i)(k) == Terms(Transpose(b), Transpose(a), i, j)(k)
    {
      TransposedTerm(a, b, i, j, k);
    }
  }

  lemma TransposedTerm(a: Mat, b: Mat, i: int, j: int, k: int)
    requires a.Valid() && b.Valid() && a.cols == b.rows
    requires 0 <= i < b.cols && 0 <= j < a.rows && 0 <= k < a.cols
    ensures Term(a, b, j, i, k) == Term(Transpose(b), Transpose(a), i, j, k)
  {
    var bt, at := Transpose(b), Transpose(a);
    assert bt.At(i, k) == b.At(k, i) && at.At(k, j) == a.At(j, k);
  }

  // ---------------------------------------------------------------------------
  // The identity matrix and associativity

  /** Row i of a * I: every term but the one at k == j is 0. */
  lemma RightIdentityTerms(m: Mat, id: Mat, i: int, j: int)
    requires m.Valid() && m.cols >= 1 && id == IdentityMatrix(m.cols).value
    requires 0 <= i < m.rows && 0 <= j < m.cols
    ensures forall k :: 0 <= k < m.cols && k != j ==> Terms(m, id, i, j)(k) == 0.0
    ensures Terms(m, id, i, j)(j) == m.At(i, j)
  {
  }

  lemma LeftIdentityTerms(m: Mat, id: Mat, i: int, j: int)
    requires m.Valid() && m.rows >= 1 && id == IdentityMatrix(m.rows).value
    requires 0 <= i < m.rows && 0 <= j < m.cols
    ensures forall k :: 0 <= k < m.rows && k != i ==> Terms(id, m, i, j)(k) == 0.0
    ensures Terms(id, m, i, j)(i) == m.At(i, j)
  {
  }

  /** `m.dot(identity_matrix(m.ncols))` is m. */
  lemma ProductIdentityRight(m: Mat)
    requires m.Valid() && m.cols >= 1
    ensures Product(m, IdentityMatrix(m.cols).value) == m
  {
    var id := IdentityMatrix(m.cols).value;
    forall i, j | 0 <= i < m.rows && 0 <= j < m.cols
      ensures Product(m, id).At(i, j) == m.At(i, j)
    {
      ProductIdentityRightAt(m, id, i, j);
    }
    Ext(Product(m, id), m);
  }

  lemma ProductIdentityRightAt(m: Mat, id: Mat, i: int, j: int)
    requires m.Valid() && m.cols >= 1 && id == IdentityMatrix(m.cols).value
    requires 0 <= i < m.rows && 0 <= j < m.cols
    ensures Product(m, id).At(i, j) == m.At(i, j)
  {
    ProductAt(m, id, i, j);
    RightIdentityTerms(m, id, i, j);
    SigmaSingle(0, m.cols, j, Terms(m, id, i, j));
  }

  /** `identity_matrix(m.nrows).dot(m)` is m. */
  lemma ProductIdentityLeft(m: Mat)
    requires m.Valid() && m.rows >= 1
    ensures Product(IdentityMatrix(m.rows).value, m) == m
  {
    var id := IdentityMatrix(m.rows).value;
    forall i, j | 0 <= i < m.rows && 0 <= j < m.cols
      ensures Product(id, m).At(i, j) == m.At(i, j)
    {
      ProductIdentityLeftAt(m, id, i, j);
    }
    Ext(Product(id, m), m);
  }

  lemma ProductIdentityLeftAt(m: Mat, id: Mat, i: int, j: int)
    requires m.Valid() && m.rows >= 1 && id == IdentityMatrix(m.rows).value
    requires 0 <= i < m.rows && 0 <= j < m.cols
    ensures Product(id, m).At(i, j) == m.At(i, j)
  {
    ProductAt(id, m, i, j);
    LeftIdentityTerms(m, id, i, j);
    SigmaSingle(0, m.rows, i, Terms(id, m, i, j));
  }

  /** (k, l) |-> a[i, l] * b[l, k] * c[k, j]: the terms of cell (i, j) of a * b * c. */
  function Triple(a: Mat, b: Mat, c: Mat, i: int, j: int): (int, int) -> real {
    (k, l) => Tri(a, b, c, i, j, k, l)
  }

  function Tri(a: Mat, b: Mat, c: Mat, i: int, j: int, k: int, l: int): real {
    if a.Valid() && b.Valid() && c.Valid() && a.cols == b.rows && b.cols == c.rows &&
       0 <= i < a.rows && 0 <= j < c.cols && 0 <= k < b.cols && 0 <= l < a.cols
    then a.At(i, l) * b.At(l, k) * c.At(k, j)
    else 0.0
  }

  lemma TripleRow(a: Mat, b: Mat, c: Mat, i: int, j: int, k: int)
    requires a.Valid() && b.Valid() && c.Valid() && a.cols == b.rows && b.cols == c.rows
    requires 0 <= i < a.rows && 0 <= j < c.cols && 0 <= k < b.cols
    ensures ScaledTerms(0, a.cols, c.At(k, j), Terms(a, b, i, k), RowOf(Triple(a, b, c, i, j), k))
  {
    forall l | 0 <= l < a.cols
      ensures RowOf(Triple(a, b, c, i, j), k)(l) == Terms(a, b, i, k)(l) * c.At(k, j)
    {
      TriRow(a, b, c, i, j, k, l);
    }
  }

  lemma TriRow(a: Mat, b: Mat, c: Mat, i: int, j: int, k: int, l: int)
    requires a.Valid() && b.Valid() && c.Valid() && a.cols == b.rows && b.cols == c.rows
    requires 0 <= i < a.rows && 0 <= j < c.cols && 0 <= k < b.cols && 0 <= l < a.cols
    ensures Tri(a, b, c, i, j, k, l) == Term(a, b, i, k, l) * c.At(k, j)
  {
  }

  lemma TripleCol(a: Mat, b: Mat, c: Mat, i: int, j: int, l: int)
    requires a.Valid() && b.Valid() && c.Valid() && a.cols == b.rows && b.cols == c.rows
    requires 0 <= i < a.rows && 0 <= j < c.cols && 0 <= l < a.cols
    ensures ScaledTerms(0, b.cols, a.At(i, l), Terms(b, c, l, j), ColOf(Triple(a, b, c, i, j), l))
  {
    forall k | 0 <= k < b.cols
      ensures ColOf(Triple(a, b, c, i, j), l)(k) == Terms(b, c, l, j)(k) * a.At(i, l)
    {
      TriCol(a, b, c, i, j, k, l);
      assert ColOf(Triple(a, b, c, i, j), l)(k) == Tri(a, b, c, i, j, k, l);
      assert Terms(b, c, l, j)(k) == Term(b, c, l, j, k);
    }
  }

  lemma TriCol(a: Mat, b: Mat, c: Mat, i: int, j: int, k: int, l: int)
    requires a.Valid() && b.Valid() && c.Valid() && a.cols == b.rows && b.cols == c.rows
    requires 0 <= i < a.rows && 0 <= j < c.cols && 0 <= k < b.cols && 0 <= l < a.cols
    ensures Tri(a, b, c, i, j, k, l) == Term(b, c, l, j, k) * a.At(i, l)
  {
  }

  /** Cell (i, j) of (a * b) * c, summed over k first and then regrouped by l. */
  lemma LeftGrouping(a: Mat, b: Mat, c: Mat, i: int, j: int)
    requires a.Valid() && b.Valid() && c.Valid() && a.cols == b.rows && b.cols == c.rows
    requires 0 <= i < a.rows && 0 <= j < c.cols
    ensures forall k :: 0 <= k < b.cols ==>
      Terms(Product(a, b), c, i, j)(k) == RowSums(Triple(a, b, c, i, j), a.cols)(k)
  {
    var f := Triple(a, b, c, i, j);
    forall k | 0 <= k < b.cols
      ensures Terms(Product(a, b), c, i, j)(k) == RowSums(f, a.cols)(k)
    {
      ProductAt(a, b, i, k);
      LeftGroupingAt(a, b, c, Product(a, b), i, j, k);
    }
  }

  lemma LeftGroupingAt(a: Mat, b: Mat, c: Mat, ab: Mat, i: int, j: int, k: int)
    requires a.Valid() && b.Valid() && c.Valid() && a.cols == b.rows && b.cols == c.rows
    requires 0 <= i < a.rows && 0 <= j < c.cols && 0 <= k < b.cols
    requires ab.Valid() && ab.rows == a.rows && ab.cols == b.cols
    requires ab.At(i, k) == Sigma(0, a.cols, Terms(a, b, i, k))
    ensures Terms(ab, c, i, j)(k) == RowSums(Triple(a, b, c, i, j), a.cols)(k)
  {
    ScaledRowSum(a, b, c, ab, i, j, k);
    TermAt(ab, c, i, j, k);
    TermsAt(ab, c, i, j, k);
    RowSumsAt(Triple(a, b, c, i, j), a.cols, k);
  }

  lemma TermsAt(a: Mat, b: Mat, i: int, j: int, k: int)
    ensures Terms(a, b, i, j)(k) == Term(a, b, i, j, k)
  {
  }

  lemma RowSumsAt(f: (int, int) -> real, m: int, k: int)
    ensures RowSums(f, m)(k) == Sigma(0, m, RowOf(f, k))
  {
  }

  lemma ColSumsAt(f: (int, int) -> real, lo: int, n: int, l: int)
    ensures ColSums(f, lo, n)(l) == Sigma(lo, n, ColOf(f, l))
  {
  }

  /** Term k of cell (i, j) of x * y. */
  lemma TermAt(x: Mat, y: Mat, i: int, j: int, k: int)
    requires ProductCell(x, y, i, j) && 0 <= k < x.cols
    ensures Term(x, y, i, j, k) == x.At(i, k) * y.At(k, j)
  {
  }

  /** Term k of cell (i, j) of x * y, with the factors swapped. */
  lemma TermAtSwapped(x: Mat, y: Mat, i: int, j: int, k: int)
    requires ProductCell(x, y, i, j) && 0 <= k < x.cols
    ensures Term(x, y, i, j, k) == y.At(k, j) * x.At(i, k)
  {
  }

  /** The inner sum of row k of the triple terms is (a * b)[i, k] * c[k, j]. */
  lemma ScaledRowSum(a: Mat, b: Mat, c: Mat, ab: Mat, i: int, j: int, k: int)
    requires a.Valid() && b.Valid() && c.Valid() && a.cols == b.rows && b.cols == c.rows
    requires 0 <= i < a.rows && 0 <= j < c.cols && 0 <= k < b.cols
    requires ab.Valid() && ab.rows == a.rows && ab.cols == b.cols
    requires ab.At(i, k) == Sigma(0, a.cols, Terms(a, b, i, k))
    ensures Sigma(0, a.cols, RowOf(Triple(a, b, c, i, j), k)) == ab.At(i, k) * c.At(k, j)
  {
    RowSumFactors(a, b, c, i, j, k);
  }

  lemma RowSumFactors(a: Mat, b: Mat, c: Mat, i: int, j: int, k: int)
    requires a.Valid() && b.Valid() && c.Valid() && a.cols == b.rows && b.cols == c.rows
    requires 0 <= i < a.rows && 0 <= j < c.cols && 0 <= k < b.cols
    ensures Sigma(0, a.cols, RowOf(Triple(a, b, c, i, j), k)) == Sigma(0, a.cols, Terms(a, b, i, k)) * c.At(k, j)
  {
    TripleRow(a, b, c, i, j, k);
    SigmaScale(0, a.cols, c.At(k, j), Terms(a, b, i, k), RowOf(Triple(a, b, c, i, j), k));
  }

  lemma RightGrouping(a: Mat, b: Mat, c: Mat, i: int, j: int)
    requires a.Valid() && b.Valid() && c.Valid() && a.cols == b.rows && b.cols == c.rows
    requires 0 <= i < a.rows && 0 <= j < c.cols
    ensures forall l :: 0 <= l < a.cols ==>
      ColSums(Triple(a, b, c, i, j), 0, b.cols)(l) == Terms(a, Product(b, c), i, j)(l)
  {
    var f := Triple(a, b, c, i, j);
    forall l | 0 <= l < a.cols
      ensures ColSums(f, 0, b.cols)(l) == Terms(a, Product(b, c), i, j)(l)
    {
      ProductAt(b, c, l, j);
      RightGroupingAt(a, b, c, Product(b, c), i, j, l);
    }
  }

  lemma RightGroupingAt(a: Mat, b: Mat, c: Mat, bc: Mat, i: int, j: int, l: int)
    requires a.Valid() && b.Valid() && c.Valid() && a.cols == b.rows && b.cols == c.rows
    requires 0 <= i < a.rows && 0 <= j < c.cols && 0 <= l < a.cols
    requires bc.Valid() && bc.rows == b.rows && bc.cols == c.cols
    requires bc.At(l, j) == Sigma(0, b.cols, Terms(b, c, l, j))
    ensures ColSums(Triple(a, b, c, i, j), 0, b.cols)(l) == Terms(a, bc, i, j)(l)
  {
    ScaledColSum(a, b, c, bc, i, j, l);
    TermAtSwapped(a, bc, i, j, l);
    TermsAt(a, bc, i, j, l);
    ColSumsAt(Triple(a, b, c, i, j), 0, b.cols, l);
  }

  /** The inner sum of column l of the triple terms is a[i, l] * (b * c)[l, j]. */
  lemma ScaledColSum(a: Mat, b: Mat, c: Mat, bc: Mat, i: int, j: int, l: int)
    requires a.Valid() && b.Valid() && c.Valid() && a.cols == b.rows && b.cols == c.rows
    requires 0 <= i < a.rows && 0 <= j < c.cols && 0 <= l < a.cols
    requires bc.Valid() && bc.rows == b.rows && bc.cols == c.cols
    requires bc.At(l, j) == Sigma(0, b.cols, Terms(b, c, l, j))
    ensures Sigma(0, b.cols, ColOf(Triple(a, b, c, i, j), l)) == bc.At(l, j) * a.At(i, l)
  {
    ColSumFactors(a, b, c, i, j, l);
  }

  lemma ColSumFactors(a: Mat, b: Mat, c: Mat, i: int, j: int, l: int)
    requires a.Valid() && b.Valid() && c.Valid() && a.cols == b.rows && b.cols == c.rows
    requires 0 <= i < a.rows && 0 <= j < c.cols && 0 <= l < a.cols
    ensures Sigma(0, b.cols, ColOf(Triple(a, b, c, i, j), l)) == Sigma(0, b.cols, Terms(b, c, l, j)) * a.At(i, l)
  {
    TripleCol(a, b, c, i, j, l);
    SigmaScale(0, b.cols, a.At(i, l), Terms(b, c, l, j), ColOf(Triple(a, b, c, i, j), l));
  }

  lemma ProductAssociativeAt(a: Mat, b: Mat, c: Mat, i: int, j: int)
    requires a.Valid() && b.Valid() && c.Valid() && a.cols == b.rows && b.cols == c.rows
    requires 0 <= i < a.rows && 0 <= j < c.cols
    ensures Product(Product(a, b), c).At(i, j) == Product(a, Product(b, c)).At(i, j)
  {
    var f := Triple(a, b, c, i, j);
    LeftGrouping(a, b, c, i, j);
    SigmaExt(0, b.cols, Terms(Product(a, b), c, i, j), RowSums(f, a.cols));
    SigmaSwap(0, b.cols, a.cols, f);
    RightGrouping(a, b, c, i, j);
    SigmaExt(0, a.cols, ColSums(f, 0, b.cols), Terms(a, Product(b, c), i, j));
    ProductAt(Product(a, b), c, i, j);
    ProductAt(a, Product(b, c), i, j);
  }

  /** The product is associative: (a * b) * c == a * (b * c). */
  lemma ProductAssociative(a: Mat, b: Mat, c: Mat)
    requires a.Valid() && b.Valid() && c.Valid() && a.cols == b.rows && b.cols == c.rows
    ensures Product(Product(a, b), c) == Product(a, Product(b, c))
  {
    forall i, j | 0 <= i < a.rows && 0 <= j < c.cols
      ensures Product(Product(a, b), c).At(i, j) == Product(a, Product(b, c)).At(i, j)
    {
      ProductAssociativeAt(a, b, c, i, j);
    }
    Ext(Product(Product(a, b), c), Product(a, Product(b, c)));
  }

  // ---------------------------------------------------------------------------
  // Determinant and inverse

  /** A 2 x 2 determinant in terms of cells. */
  lemma Det2(m: Mat)
    requires m.Valid() && m.rows == m.cols == 2
    ensures Det(m) == m.At(0, 0) * m.At(1, 1) - m.At(0, 1) * m.At(1, 0)
  {
  }

  /** Removing row 0 and column 0 of the n x n identity leaves the (n-1) x (n-1) identity. */
  lemma IdentityMinor(n: nat)
    requires n >= 2
    ensures SubMatrix(IdentityMatrix(n).value, 0, 0) == IdentityMatrix(n - 1).value
  {
    var id, sub := IdentityMatrix(n).value, IdentityMatrix(n - 1).value;
    Ext(SubMatrix(id, 0, 0), sub);
  }

  /** Along row 0 of the identity only the first term of the expansion survives. */
  lemma {:induction false} IdentityExpansion(n: nat, t: nat)
    requires n >= 2 && 1 <= t <= n
    ensures Expansion(IdentityMatrix(n).value, t) == Det(SubMatrix(IdentityMatrix(n).value, 0, 0))
  {
    var id := IdentityMatrix(n).value;
    if t > 1 {
      IdentityExpansion(n, t - 1);
      assert id.At(0, t - 1) == 0.0;
    }
  }

  /** The determinant of every identity matrix is 1. */
  lemma {:induction false} DetIdentity(n: nat)
    requires n >= 1
    ensures Determinant(IdentityMatrix(n).value) == Ok(1.0)
  {
    var id := IdentityMatrix(n).value;
    if n == 1 {
      assert id.At(0, 0) == id.data[0];
    } else if n == 2 {
      Det2(id);
    } else {
      DetIdentity(n - 1);
      IdentityMinor(n);
      IdentityExpansion(n, n);
      assert Det(id) == Expansion(id, n);
    }
  }

  /** Cell (i, j) of `inverse()` is cofactor (j, i) times e, the reciprocal of the
      determinant: the transposed cofactor matrix scaled by 1 / det. */
  lemma InverseAt(m: Mat, i: int, j: int, e: real)
    requires m.Valid() && m.rows == m.cols && m.rows >= 2 && Det(m) != 0.0 && e == 1.0 / Det(m)
    requires 0 <= i < m.rows && 0 <= j < m.cols
    ensures Inverse(m).Ok? && Inverse(m).value.Valid() && Inverse(m).value.rows == m.rows
    ensures Inverse(m).value.cols == m.cols
    ensures Inverse(m).value.At(i, j) == Cofactors(m).At(j, i) * e
  {
    InverseIsScaledAdjugate(m, e);
    AdjugateAt(m, i, j, e);
  }

  /** `inverse()` scales the transposed cofactor matrix (the adjugate) by 1 / det. */
  lemma InverseIsScaledAdjugate(m: Mat, e: real)
    requires m.Valid() && m.rows == m.cols && m.rows >= 2 && Det(m) != 0.0 && e == 1.0 / Det(m)
    ensures Inverse(m) == Ok(Scale(Transpose(Cofactors(m)), e))
  {
  }

  lemma AdjugateAt(m: Mat, i: int, j: int, e: real)
    requires m.Valid() && m.rows == m.cols && m.rows >= 2
    requires 0 <= i < m.rows && 0 <= j < m.cols
    ensures Scale(Transpose(Cofactors(m)), e).At(i, j) == Cofactors(m).At(j, i) * e
  {
  }

  lemma Sigma2(f: int -> real)
    ensures Sigma(0, 2, f) == f(0) + f(1)
  {
  }

  lemma Sigma3(f: int -> real)
    ensures Sigma(0, 3, f) == f(0) + f(1) + f(2)
  {
    assert Sigma(2, 3, f) == f(2);
  }

  /** The minor of a 2 x 2 matrix at (i, j) is the opposite cell. */
  lemma Minor2(m: Mat, i: int, j: int)
    requires m.Valid() && m.rows == m.cols == 2 && 0 <= i < 2 && 0 <= j < 2
    ensures Det(SubMatrix(m, i, j)) == m.At(1 - i, 1 - j)
  {
    var sub := SubMatrix(m, i, j);
    assert Det(sub) == sub.data[0] == sub.At(0, 0);
  }

  /** The cells of a 2 x 2 inverse: [[d, -b], [-c, a]] / (ad - bc). */
  lemma Inverse2Cells(m: Mat, e: real)
    requires m.Valid() && m.rows == m.cols == 2 && Det(m) != 0.0
    requires e == 1.0 / Det(m)
    ensures Inverse(m).Ok? && Inverse(m).value.Valid() && Inverse(m).value.rows == Inverse(m).value.cols == 2
    ensures var inv := Inverse(m).value;
      inv.At(0, 0) == m.At(1, 1) * e && inv.At(0, 1) == -m.At(0, 1) * e &&
      inv.At(1, 0) == -m.At(1, 0) * e && inv.At(1, 1) == m.At(0, 0) * e
  {
    InverseIsScaledAdjugate(m, e);
    Adjugate2Cell(m, e, 0, 0);
    Adjugate2Cell(m, e, 0, 1);
    Adjugate2Cell(m, e, 1, 0);
    Adjugate2Cell(m, e, 1, 1);
  }

  /** Cell (i, j) of a scaled 2 x 2 adjugate is the signed opposite cell of the
      transpose, times the scale. */
  lemma Adjugate2Cell(m: Mat, e: real, i: int, j: int)
    requires m.Valid() && m.rows == m.cols == 2 && 0 <= i < 2 && 0 <= j < 2
    ensures Scale(Transpose(Cofactors(m)), e).At(i, j) ==
      (if i + j == 1 then -m.At(1 - j, 1 - i) else m.At(1 - j, 1 - i)) * e
  {
    AdjugateAt(m, i, j, e);
    Cofactor2(m, j, i);
  }

  /** Cofactor (i, j) of a 2 x 2 matrix is the signed opposite cell. */
  lemma Cofactor2(m: Mat, i: int, j: int)
    requires m.Valid() && m.rows == m.cols == 2 && 0 <= i < 2 && 0 <= j < 2
    ensures Cofactors(m).At(i, j) == if i + j == 1 then -m.At(1 - i, 1 - j) else m.At(1 - i, 1 - j)
  {
    CofactorAt(m, i, j);
    Minor2(m, i, j);
    Sign2(i, j);
    SignedCell(Cofactors(m).At(i, j), Det(SubMatrix(m, i, j)), Sign(i + j), m.At(1 - i, 1 - j), i + j == 1);
  }

  lemma CofactorAt(m: Mat, i: int, j: int)
    requires m.Valid() && m.rows == m.cols && m.rows >= 2 && 0 <= i < m.rows && 0 <= j < m.cols
    ensures Cofactors(m).At(i, j) == Det(SubMatrix(m, i, j)) * Sign(i + j)
  {
  }

  lemma Sign2(i: int, j: int)
    requires 0 <= i < 2 && 0 <= j < 2
    ensures Sign(i + j) == if i + j == 1 then -1.0 else 1.0
  {
  }

  /** A cofactor c = d * s with sign s = -1 or 1. */
  lemma SignedCell(c: real, d: real, s: real, x: real, neg: bool)
    requires c == d * s && d == x && s == (if neg then -1.0 else 1.0)
    ensures c == if neg then -x else x
  {
  }

  /** A cell of a product of 2 x 2 matrices, written out. */
  lemma Product2At(a: Mat, b: Mat, i: int, j: int)
    requires a.Valid() && b.Valid() && a.rows == a.cols == b.rows == b.cols == 2
    requires 0 <= i < 2 && 0 <= j < 2
    ensures Product(a, b).At(i, j) == a.At(i, 0) * b.At(0, j) + a.At(i, 1) * b.At(1, j)
  {
    ProductAt(a, b, i, j);
    Sigma2(Terms(a, b, i, j));
  }

  /** The cells of a 2 x 2 matrix [[a, b], [c, d]] with determinant det, and a
      candidate inverse [[w, x], [y, z]] = [[d, -b], [-c, a]] * e with det * e = 1. */
  predicate Adjugate2(a: real, b: real, c: real, d: real, det: real, e: real,
                      w: real, x: real, y: real, z: real)
  {
    det == a * d - b * c && det * e == 1.0 &&
    w == d * e && x == -b * e && y == -c * e && z == a * e
  }

  /** [[w, x], [y, z]] is a two-sided inverse of [[a, b], [c, d]], cell by cell. */
  predicate Inverse2Law(a: real, b: real, c: real, d: real, w: real, x: real, y: real, z: real)
  {
    a * w + b * y == 1.0 && a * x + b * z == 0.0 && c * w + d * y == 0.0 && c * x + d * z == 1.0 &&
    w * a + x * c == 1.0 && w * b + x * d == 0.0 && y * a + z * c == 0.0 && y * b + z * d == 1.0
  }

  /** The adjugate identity of a 2 x 2 matrix: both products with the scaled adjugate
      are the identity. */
  lemma Adjugate2Identity(a: real, b: real, c: real, d: real, det: real, e: real,
                          w: real, x: real, y: real, z: real)
    requires Adjugate2(a, b, c, d, det, e, w, x, y, z)
    ensures Inverse2Law(a, b, c, d, w, x, y, z)
  {
  }

  /** The cells of a 2 x 2 matrix and of its `inverse()` stand in the adjugate relation. */
  lemma Inverse2Adjugate(m: Mat, e: real)
    requires m.Valid() && m.rows == m.cols == 2 && Det(m) != 0.0 && e == 1.0 / Det(m)
    ensures Inverse(m).Ok? && Inverse(m).value.Valid() && Inverse(m).value.rows == Inverse(m).value.cols == 2
    ensures var inv := Inverse(m).value;
      Adjugate2(m.At(0, 0), m.At(0, 1), m.At(1, 0), m.At(1, 1), Det(m), e,
                inv.At(0, 0), inv.At(0, 1), inv.At(1, 0), inv.At(1, 1))
  {
    Inverse2Cells(m, e);
    Det2(m);
    Reciprocal(Det(m), e);
  }

  /** The adjugate identity for the cells of a 2 x 2 matrix and its `inverse()`. */
  lemma Inverse2Algebra(m: Mat)
    requires m.Valid() && m.rows == m.cols == 2 && Det(m) != 0.0
    ensures Inverse(m).Ok? && Inverse(m).value.Valid() && Inverse(m).value.rows == Inverse(m).value.cols == 2
    ensures var inv := Inverse(m).value;
      Inverse2Law(m.At(0, 0), m.At(0, 1), m.At(1, 0), m.At(1, 1),
                  inv.At(0, 0), inv.At(0, 1), inv.At(1, 0), inv.At(1, 1))
  {
    var e := 1.0 / Det(m);
    Inverse2Adjugate(m, e);
    var inv := Inverse(m).value;
    Adjugate2Identity(m.At(0, 0), m.At(0, 1), m.At(1, 0), m.At(1, 1), Det(m), e,
                      inv.At(0, 0), inv.At(0, 1), inv.At(1, 0), inv.At(1, 1));
  }

  /** The cells of a 2 x 2 matrix are those of the identity. */
  predicate Identity2Cells(p: Mat)
    requires p.Valid() && p.rows == p.cols == 2
  {
    p.At(0, 0) == 1.0 && p.At(0, 1) == 0.0 && p.At(1, 0) == 0.0 && p.At(1, 1) == 1.0
  }

  /** The four cells of a product of 2 x 2 matrices, written out. */
  lemma Product2(a: Mat, b: Mat)
    requires a.Valid() && b.Valid() && a.rows == a.cols == b.rows == b.cols == 2
    ensures var p := Product(a, b);
      p.Valid() && p.rows == p.cols == 2 &&
      p.At(0, 0) == a.At(0, 0) * b.At(0, 0) + a.At(0, 1) * b.At(1, 0) &&
      p.At(0, 1) == a.At(0, 0) * b.At(0, 1) + a.At(0, 1) * b.At(1, 1) &&
      p.At(1, 0) == a.At(1, 0) * b.At(0, 0) + a.At(1, 1) * b.At(1, 0) &&
      p.At(1, 1) == a.At(1, 0) * b.At(0, 1) + a.At(1, 1) * b.At(1, 1)
  {
    Product2At(a, b, 0, 0);
    Product2At(a, b, 0, 1);
    Product2At(a, b, 1, 0);
    Product2At(a, b, 1, 1);
  }

  /** Two 2 x 2 matrices whose cells satisfy the inverse law multiply, in either
      order, to cells of the identity. */
  lemma Inverse2LawProducts(a: Mat, b: Mat)
    requires a.Valid() && b.Valid() && a.rows == a.cols == b.rows == b.cols == 2
    requires Inverse2Law(a.At(0, 0), a.At(0, 1), a.At(1, 0), a.At(1, 1),
                         b.At(0, 0), b.At(0, 1), b.At(1, 0), b.At(1, 1))
    ensures Product(a, b).Valid() && Product(a, b).rows == Product(a, b).cols == 2
    ensures Product(b, a).Valid() && Product(b, a).rows == Product(b, a).cols == 2
    ensures Identity2Cells(Product(a, b)) && Identity2Cells(Product(b, a))
  {
    Product2(a, b);
    Product2(b, a);
  }

  /** A 2 x 2 matrix whose cells are the identity's is `identity_matrix(2)`. */
  lemma Identity2(p: Mat)
    requires p.Valid() && p.rows == p.cols == 2 && Identity2Cells(p)
    ensures p == IdentityMatrix(2).value
  {
    var id := IdentityMatrix(2).value;
    forall i, j | 0 <= i < 2 && 0 <= j < 2
      ensures p.At(i, j) == id.At(i, j)
    {
      if i == 0 && j == 0 {
      } else if i == 0 {
      } else if j == 0 {
      } else {
      }
    }
    Ext(p, id);
  }

  lemma Reciprocal(d: real, e: real)
    requires d != 0.0 && e == 1.0 / d
    ensures d * e == 1.0
  {
  }

  /** For a 2 x 2 matrix with non-zero determinant, `m.dot(m.inverse())` and
      `m.inverse().dot(m)` are both the identity. */
  lemma Inverse2x2(m: Mat)
    requires m.Valid() && m.rows == m.cols == 2 && Det(m) != 0.0
    ensures Inverse(m).Ok?
    ensures Product(m, Inverse(m).value) == IdentityMatrix(2).value
    ensures Product(Inverse(m).value, m) == IdentityMatrix(2).value
  {
    Inverse2Algebra(m);
    Inverse2LawProducts(m, Inverse(m).value);
    Identity2(Product(m, Inverse(m).value));
    Identity2(Product(Inverse(m).value, m));
  }

  // ---------------------------------------------------------------------------
  // 3 x 3 products written out

  /** A cell of a product whose inner dimension is 3. */
  lemma Product3At(a: Mat, b: Mat, i: int, j: int)
    requires a.Valid() && b.Valid() && a.cols == 3 && b.rows == 3
    requires 0 <= i < a.rows && 0 <= j < b.cols
    ensures Product(a, b).At(i, j) == a.At(i, 0) * b.At(0, j) + a.At(i, 1) * b.At(1, j) + a.At(i, 2) * b.At(2, j)
  {
    ProductAt(a, b, i, j);
    Sigma3(Terms(a, b, i, j));
  }

  /** A 3 x 3 matrix is its nine cells. */
  lemma Cells3(m: Mat)
    requires m.Valid() && m.rows == 3 && m.cols == 3
    ensures m == Mat(3, 3, [m.At(0, 0), m.At(0, 1), m.At(0, 2),
                            m.At(1, 0), m.At(1, 1), m.At(1, 2),
                            m.At(2, 0), m.At(2, 1), m.At(2, 2)])
  {
    assert m.data == [m.data[0], m.data[1], m.data[2], m.data[3], m.data[4],
                      m.data[5], m.data[6], m.data[7], m.data[8]];
  }

  /** Two 3 x 3 matrices with the same nine cells are equal. */
  lemma Mat3Eq(m: Mat, n: Mat)
    requires m.Valid() && m.rows == 3 && m.cols == 3 && n.Valid() && n.rows == 3 && n.cols == 3
    requires m.At(0, 0) == n.At(0, 0) && m.At(0, 1) == n.At(0, 1) && m.At(0, 2) == n.At(0, 2)
    requires m.At(1, 0) == n.At(1, 0) && m.At(1, 1) == n.At(1, 1) && m.At(1, 2) == n.At(1, 2)
    requires m.At(2, 0) == n.At(2, 0) && m.At(2, 1) == n.At(2, 1) && m.At(2, 2) == n.At(2, 2)
    ensures m == n
  {
    Cells3(m);
    Cells3(n);
  }

  /** The cells of a product of two 3 x 3 matrices, written out. */
  lemma Product3Cells(a: Mat, b: Mat)
    requires a.Valid() && b.Valid() && a.rows == a.cols == b.rows == b.cols == 3
    ensures forall i, j :: 0 <= i < 3 && 0 <= j < 3 ==>
      Product(a, b).At(i, j) == a.At(i, 0) * b.At(0, j) + a.At(i, 1) * b.At(1, j) + a.At(i, 2) * b.At(2, j)
  {
    forall i, j | 0 <= i < 3 && 0 <= j < 3
      ensures Product(a, b).At(i, j) == a.At(i, 0) * b.At(0, j) + a.At(i, 1) * b.At(1, j) + a.At(i, 2) * b.At(2, j)
    {
      Product3At(a, b, i, j);
    }
  }

  // ---------------------------------------------------------------------------
  // 3 x 3 determinant and inverse: the recursive expansion at its first size

  /** The rule of Sarrus for [[a, b, c], [d, e, f], [g, h, k]]. */
  function Sarrus(a: real, b: real, c: real, d: real, e: real, f: real, g: real, h: real, k: real): real {
    a * e * k + b * f * g + c * d * h - c * e * g - b * d * k - a * f * h
  }

  /** The minor of a 3 x 3 matrix at (i, j) is the 2 x 2 determinant of the cells
      left in the other two rows and columns. */
  lemma Minor3(m: Mat, i: int, j: int)
    requires m.Valid() && m.rows == m.cols == 3 && 0 <= i < 3 && 0 <= j < 3
    ensures Det(SubMatrix(m, i, j)) ==
      m.At(Skip(0, i), Skip(0, j)) * m.At(Skip(1, i), Skip(1, j)) -
      m.At(Skip(0, i), Skip(1, j)) * m.At(Skip(1, i), Skip(0, j))
  {
    Det2(SubMatrix(m, i, j));
  }

  /** For every 3 x 3 matrix, the expansion along row 0 that `get_determinant()`
      performs is the rule of Sarrus. */
  lemma DetSarrus(m: Mat)
    requires m.Valid() && m.rows == m.cols == 3
    ensures Det(m) == Sarrus(m.At(0, 0), m.At(0, 1), m.At(0, 2),
                             m.At(1, 0), m.At(1, 1), m.At(1, 2),
                             m.At(2, 0), m.At(2, 1), m.At(2, 2))
  {
    var a, b, c := m.At(0, 0), m.At(0, 1), m.At(0, 2);
    var d, e, f := m.At(1, 0), m.At(1, 1), m.At(1, 2);
    var g, h, k := m.At(2, 0), m.At(2, 1), m.At(2, 2);
    Minor3(m, 0, 0);
    Minor3(m, 0, 1);
    Minor3(m, 0, 2);
    var t0, t1, t2 := ExpansionTerm(m, 0), ExpansionTerm(m, 1), ExpansionTerm(m, 2);
    assert t0 == 1.0 * a * (e * k - f * h);
    assert t1 == -1.0 * b * (d * k - f * g);
    assert t2 == 1.0 * c * (d * h - e * g);
    assert Expansion(m, 1) == t0;
    assert Expansion(m, 2) == t0 + t1;
    assert Det(m) == Expansion(m, 3) == t0 + t1 + t2;
    SarrusTerms(a, b, c, d, e, f, g, h, k, t0, t1, t2);
  }

  lemma SarrusTerms(a: real, b: real, c: real, d: real, e: real, f: real, g: real, h: real, k: real,
                    t0: real, t1: real, t2: real)
    requires t0 == 1.0 * a * (e * k - f * h) && t1 == -1.0 * b * (d * k - f * g)
    requires t2 == 1.0 * c * (d * h - e * g)
    ensures t0 + t1 + t2 == Sarrus(a, b, c, d, e, f, g, h, k)
  {
  }

  /** Cofactor (i, j) of a 3 x 3 matrix: the determinant of the cells in rows r0, r1
      and columns c0, c1 (the ones other than i and j), with sign s = (-1)^(i+j). */
  lemma Cofactor3(m: Mat, i: int, j: int, r0: int, r1: int, c0: int, c1: int, s: real)
    requires m.Valid() && m.rows == m.cols == 3 && 0 <= i < 3 && 0 <= j < 3
    requires r0 == Skip(0, i) && r1 == Skip(1, i) && c0 == Skip(0, j) && c1 == Skip(1, j)
    requires s == Sign(i + j)
    ensures Cofactors(m).At(i, j) == s * (m.At(r0, c0) * m.At(r1, c1) - m.At(r0, c1) * m.At(r1, c0))
  {
    CofactorAt(m, i, j);
    Minor3(m, i, j);
  }

  lemma CofactorsRow0(m: Mat)
    requires m.Valid() && m.rows == m.cols == 3
    ensures Cofactors(m).At(0, 0) == m.At(1, 1) * m.At(2, 2) - m.At(1, 2) * m.At(2, 1)
    ensures Cofactors(m).At(0, 1) == m.At(1, 2) * m.At(2, 0) - m.At(1, 0) * m.At(2, 2)
    ensures Cofactors(m).At(0, 2) == m.At(1, 0) * m.At(2, 1) - m.At(1, 1) * m.At(2, 0)
  {
    Cofactor3(m, 0, 0, 1, 2, 1, 2, 1.0);
    Cofactor3(m, 0, 1, 1, 2, 0, 2, -1.0);
    Cofactor3(m, 0, 2, 1, 2, 0, 1, 1.0);
  }

  lemma CofactorsRow1(m: Mat)
    requires m.Valid() && m.rows == m.cols == 3
    ensures Cofactors(m).At(1, 0) == m.At(0, 2) * m.At(2, 1) - m.At(0, 1) * m.At(2, 2)
    ensures Cofactors(m).At(1, 1) == m.At(0, 0) * m.At(2, 2) - m.At(0, 2) * m.At(2, 0)
    ensures Cofactors(m).At(1, 2) == m.At(0, 1) * m.At(2, 0) - m.At(0, 0) * m.At(2, 1)
  {
    Cofactor3(m, 1, 0, 0, 2, 1, 2, -1.0);
    Cofactor3(m, 1, 1, 0, 2, 0, 2, 1.0);
    Cofactor3(m, 1, 2, 0, 2, 0, 1, -1.0);
  }

  lemma CofactorsRow2(m: Mat)
    requires m.Valid() && m.rows == m.cols == 3
    ensures Cofactors(m).At(2, 0) == m.At(0, 1) * m.At(1, 2) - m.At(0, 2) * m.At(1, 1)
    ensures Cofactors(m).At(2, 1) == m.At(0, 2) * m.At(1, 0) - m.At(0, 0) * m.At(1, 2)
    ensures Cofactors(m).At(2, 2) == m.At(0, 0) * m.At(1, 1) - m.At(0, 1) * m.At(1, 0)
  {
    Cofactor3(m, 2, 0, 0, 1, 1, 2, 1.0);
    Cofactor3(m, 2, 1, 0, 1, 0, 2, -1.0);
    Cofactor3(m, 2, 2, 0, 1, 0, 1, 1.0);
  }

  /** The signed minor at (i, j) of the 3 x 3 matrix whose row-major cells are s. */
  function CofactorOf3(s: seq<real>, i: int, j: int): real
    requires |s| == 9
  {
    var a, b, c, d, e, f, g, h, k := s[0], s[1], s[2], s[3], s[4], s[5], s[6], s[7], s[8];
    if i == 0 then
      (if j == 0 then e * k - f * h else if j == 1 then f * g - d * k else d * h - e * g)
    else if i == 1 then
      (if j == 0 then c * h - b * k else if j == 1 then a * k - c * g else b * g - a * h)
    else
      (if j == 0 then b * f - c * e else if j == 1 then c * d - a * f else a * e - b * d)
  }

  /** The rule of Sarrus over the row-major cells s. */
  function SarrusOf(s: seq<real>): real
    requires |s| == 9
  {
    Sarrus(s[0], s[1], s[2], s[3], s[4], s[5], s[6], s[7], s[8])
  }

  /** Every cofactor of a 3 x 3 matrix is the signed 2 x 2 minor of the table. */
  lemma Cofactors3(m: Mat, i: int, j: int)
    requires m.Valid() && m.rows == m.cols == 3 && 0 <= i < 3 && 0 <= j < 3
    ensures Cofactors(m).At(i, j) == CofactorOf3(m.data, i, j)
  {
    if i == 0 {
      CofactorsRow0(m);
    } else if i == 1 {
      CofactorsRow1(m);
    } else {
      CofactorsRow2(m);
    }
  }

  /** Row j of the cofactors of the 3 x 3 matrix with row-major cells s is the cross
      product u x v of the next two rows (u = row j + 1, v = row j + 2, counted mod 3). */
  lemma CofactorRow3(s: seq<real>, j: int, u0: real, u1: real, u2: real, v0: real, v1: real, v2: real)
    returns (y0: real, y1: real, y2: real)
    requires |s| == 9 && 0 <= j < 3
    requires u0 == s[3 * ((j + 1) % 3)] && u1 == s[3 * ((j + 1) % 3) + 1] && u2 == s[3 * ((j + 1) % 3) + 2]
    requires v0 == s[3 * ((j + 2) % 3)] && v1 == s[3 * ((j + 2) % 3) + 1] && v2 == s[3 * ((j + 2) % 3) + 2]
    ensures y0 == CofactorOf3(s, j, 0) && y1 == CofactorOf3(s, j, 1) && y2 == CofactorOf3(s, j, 2)
    ensures y0 == u1 * v2 - u2 * v1 && y1 == u2 * v0 - u0 * v2 && y2 == u0 * v1 - u1 * v0
  {
    y0, y1, y2 := CofactorOf3(s, j, 0), CofactorOf3(s, j, 1), CofactorOf3(s, j, 2);
  }

  /** The triple product: x . (u x v) is the Sarrus determinant of the rows x, u, v,
      and u x v is orthogonal to u and to v. */
  lemma TripleProduct(x0: real, x1: real, x2: real, u0: real, u1: real, u2: real,
                      v0: real, v1: real, v2: real, y0: real, y1: real, y2: real)
    requires y0 == u1 * v2 - u2 * v1 && y1 == u2 * v0 - u0 * v2 && y2 == u0 * v1 - u1 * v0
    ensures x0 * y0 + x1 * y1 + x2 * y2 == Sarrus(x0, x1, x2, u0, u1, u2, v0, v1, v2)
    ensures u0 * y0 + u1 * y1 + u2 * y2 == 0.0
    ensures v0 * y0 + v1 * y1 + v2 * y2 == 0.0
  {
  }

  /** The Sarrus determinant is unchanged by rotating the rows and by transposing. */
  lemma SarrusSymmetries(a: real, b: real, c: real, d: real, e: real, f: real, g: real, h: real, k: real)
    ensures Sarrus(d, e, f, g, h, k, a, b, c) == Sarrus(a, b, c, d, e, f, g, h, k)
    ensures Sarrus(g, h, k, a, b, c, d, e, f) == Sarrus(a, b, c, d, e, f, g, h, k)
    ensures Sarrus(a, d, g, b, e, h, c, f, k) == Sarrus(a, b, c, d, e, f, g, h, k)
  {
  }

  /** A sum of three products, one factor of each scaled by e = 1 / det, where the
      unscaled sum is det on the diagonal and 0 off it. */
  lemma ScaledCell(x0: real, x1: real, x2: real, y0: real, y1: real, y2: real,
                   det: real, e: real, diag: bool)
    requires x0 * y0 + x1 * y1 + x2 * y2 == if diag then det else 0.0
    requires det * e == 1.0
    ensures x0 * (y0 * e) + x1 * (y1 * e) + x2 * (y2 * e) == if diag then 1.0 else 0.0
    ensures (y0 * e) * x0 + (y1 * e) * x1 + (y2 * e) * x2 == if diag then 1.0 else 0.0
  {
    assert x0 * (y0 * e) + x1 * (y1 * e) + x2 * (y2 * e) == (x0 * y0 + x1 * y1 + x2 * y2) * e;
    assert (y0 * e) * x0 + (y1 * e) * x1 + (y2 * e) * x2 == (x0 * y0 + x1 * y1 + x2 * y2) * e;
  }

  /** `get_determinant()` of a 3 x 3 matrix is the rule of Sarrus over its cells. */
  lemma DetSarrusOf(m: Mat)
    requires m.Valid() && m.rows == m.cols == 3
    ensures Det(m) == SarrusOf(m.data)
  {
    DetSarrus(m);
  }

  /** Cell (i, j) of the `inverse()` of a 3 x 3 matrix: the signed minor (j, i) of
      the cell table, divided by the determinant. */
  lemma InverseCell3(m: Mat, e: real, i: int, j: int)
    requires m.Valid() && m.rows == m.cols == 3 && Det(m) != 0.0 && e == 1.0 / Det(m)
    requires 0 <= i < 3 && 0 <= j < 3
    ensures Inverse(m).Ok? && Inverse(m).value.Valid() && Inverse(m).value.rows == Inverse(m).value.cols == 3
    ensures Inverse(m).value.At(i, j) == CofactorOf3(m.data, j, i) * e
  {
    InverseAt(m, i, j, e);
    ScaledCofactor3(m, Inverse(m).value, e, i, j);
  }

  /** A cell holding cofactor (j, i) scaled by e holds the signed minor (j, i) scaled by e. */
  lemma ScaledCofactor3(m: Mat, b: Mat, e: real, i: int, j: int)
    requires m.Valid() && m.rows == m.cols == 3 && b.Valid() && b.rows == b.cols == 3
    requires 0 <= i < 3 && 0 <= j < 3 && b.At(i, j) == Cofactors(m).At(j, i) * e
    ensures b.At(i, j) == CofactorOf3(m.data, j, i) * e
  {
    Cofactors3(m, j, i);
  }

  /** A product cell with the column of the right factor given. */
  lemma ProductCellByCol(a: Mat, b: Mat, i: int, j: int, y0: real, y1: real, y2: real)
    requires a.Valid() && b.Valid() && a.rows == a.cols == b.rows == b.cols == 3
    requires 0 <= i < 3 && 0 <= j < 3
    requires b.At(0, j) == y0 && b.At(1, j) == y1 && b.At(2, j) == y2
    ensures Product(a, b).At(i, j) == a.At(i, 0) * y0 + a.At(i, 1) * y1 + a.At(i, 2) * y2
  {
    Product3At(a, b, i, j);
  }

  /** A product cell with the row of the left factor given. */
  lemma ProductCellByRow(a: Mat, b: Mat, i: int, j: int, x0: real, x1: real, x2: real)
    requires a.Valid() && b.Valid() && a.rows == a.cols == b.rows == b.cols == 3
    requires 0 <= i < 3 && 0 <= j < 3
    requires a.At(i, 0) == x0 && a.At(i, 1) == x1 && a.At(i, 2) == x2
    ensures Product(a, b).At(i, j) == x0 * b.At(0, j) + x1 * b.At(1, j) + x2 * b.At(2, j)
  {
    Product3At(a, b, i, j);
  }

  /** Cell (i, j) of m times b, where row i of m is x, column j of b is y scaled by e,
      and x . y is det on the diagonal and 0 off it, with det * e == 1. */
  lemma RightCell3(m: Mat, b: Mat, det: real, e: real, i: int, j: int,
                   x0: real, x1: real, x2: real, y0: real, y1: real, y2: real)
    requires m.Valid() && b.Valid() && m.rows == m.cols == b.rows == b.cols == 3
    requires 0 <= i < 3 && 0 <= j < 3 && det * e == 1.0
    requires m.At(i, 0) == x0 && m.At(i, 1) == x1 && m.At(i, 2) == x2
    requires b.At(0, j) == y0 * e && b.At(1, j) == y1 * e && b.At(2, j) == y2 * e
    requires x0 * y0 + x1 * y1 + x2 * y2 == if i == j then det else 0.0
    ensures Product(m, b).At(i, j) == if i == j then 1.0 else 0.0
  {
    ProductCellByCol(m, b, i, j, y0 * e, y1 * e, y2 * e);
    ScaledCell(x0, x1, x2, y0, y1, y2, det, e, i == j);
  }

  /** Cell (i, j) of b times m, where row i of b is y scaled by e, column j of m is x,
      and y . x is det on the diagonal and 0 off it, with det * e == 1. */
  lemma LeftCell3(m: Mat, b: Mat, det: real, e: real, i: int, j: int,
                  x0: real, x1: real, x2: real, y0: real, y1: real, y2: real)
    requires m.Valid() && b.Valid() && m.rows == m.cols == b.rows == b.cols == 3
    requires 0 <= i < 3 && 0 <= j < 3 && det * e == 1.0
    requires m.At(0, j) == x0 && m.At(1, j) == x1 && m.At(2, j) == x2
    requires b.At(i, 0) == y0 * e && b.At(i, 1) == y1 * e && b.At(i, 2) == y2 * e
    requires x0 * y0 + x1 * y1 + x2 * y2 == if i == j then det else 0.0
    ensures Product(b, m).At(i, j) == if i == j then 1.0 else 0.0
  {
    ProductCellByRow(b, m, i, j, y0 * e, y1 * e, y2 * e);
    ScaledCell(x0, x1, x2, y0, y1, y2, det, e, i == j);
  }

  /** b holds the transposed cofactors of the 3 x 3 matrix m, scaled by e. */
  ghost predicate ScaledAdjugate3(m: Mat, b: Mat, e: real)
    requires m.Valid() && b.Valid() && m.rows == m.cols == b.rows == b.cols == 3
  {
    forall r, c :: 0 <= r < 3 && 0 <= c < 3 ==> b.At(r, c) == CofactorOf3(m.data, c, r) * e
  }

  /** Column j of the scaled adjugate b holds cofactor row j of m, scaled by e: the
      cross product of rows j + 1 and j + 2 of m. */
  lemma AdjugateColumn3(m: Mat, b: Mat, e: real, j: int,
                        u0: real, u1: real, u2: real, v0: real, v1: real, v2: real)
    returns (y0: real, y1: real, y2: real)
    requires m.Valid() && b.Valid() && m.rows == m.cols == b.rows == b.cols == 3
    requires 0 <= j < 3 && ScaledAdjugate3(m, b, e)
    requires u0 == m.data[3 * ((j + 1) % 3)] && u1 == m.data[3 * ((j + 1) % 3) + 1]
    requires u2 == m.data[3 * ((j + 1) % 3) + 2]
    requires v0 == m.data[3 * ((j + 2) % 3)] && v1 == m.data[3 * ((j + 2) % 3) + 1]
    requires v2 == m.data[3 * ((j + 2) % 3) + 2]
    ensures b.At(0, j) == y0 * e && b.At(1, j) == y1 * e && b.At(2, j) == y2 * e
    ensures y0 == u1 * v2 - u2 * v1 && y1 == u2 * v0 - u0 * v2 && y2 == u0 * v1 - u1 * v0
  {
    y0, y1, y2 := CofactorRow3(m.data, j, u0, u1, u2, v0, v1, v2);
    assert b.At(0, j) == CofactorOf3(m.data, j, 0) * e;
    assert b.At(1, j) == CofactorOf3(m.data, j, 1) * e;
    assert b.At(2, j) == CofactorOf3(m.data, j, 2) * e;
  }

  /** m times b is the identity when the cells of m are x, the cells of b are the
      transposed y scaled by e = 1 / det, and row i of m against row j of y gives det
      on the diagonal and 0 off it. */
  lemma RightIdentityCells3(m: Mat, b: Mat, det: real, e: real, x00: real, x01: real, x02: real, x10: real, x11: real, x12: real,
      x20: real, x21: real, x22: real, y00: real, y01: real, y02: real, y10: real, y11: real,
      y12: real, y20: real, y21: real, y22: real)
    requires m.Valid() && b.Valid() && m.rows == m.cols == b.rows == b.cols == 3
    requires det * e == 1.0
    requires m.At(0, 0) == x00 && m.At(0, 1) == x01 && m.At(0, 2) == x02
    requires m.At(1, 0) == x10 && m.At(1, 1) == x11 && m.At(1, 2) == x12
    requires m.At(2, 0) == x20 && m.At(2, 1) == x21 && m.At(2, 2) == x22
    requires b.At(0, 0) == y00 * e && b.At(0, 1) == y10 * e && b.At(0, 2) == y20 * e
    requires b.At(1, 0) == y01 * e && b.At(1, 1) == y11 * e && b.At(1, 2) == y21 * e
    requires b.At(2, 0) == y02 * e && b.At(2, 1) == y12 * e && b.At(2, 2) == y22 * e
    requires x00 * y00 + x01 * y01 + x02 * y02 == det
    requires x00 * y10 + x01 * y11 + x02 * y12 == 0.0
    requires x00 * y20 + x01 * y21 + x02 * y22 == 0.0
    requires x10 * y00 + x11 * y01 + x12 * y02 == 0.0
    requires x10 * y10 + x11 * y11 + x12 * y12 == det
    requires x10 * y20 + x11 * y21 + x12 * y22 == 0.0
    requires x20 * y00 + x21 * y01 + x22 * y02 == 0.0
    requires x20 * y10 + x21 * y11 + x22 * y12 == 0.0
    requires x20 * y20 + x21 * y21 + x22 * y22 == det
    ensures Product(m, b) == IdentityMatrix(3).value
  {
    RightCell3(m, b, det, e, 0, 0, x00, x01, x02, y00, y01, y02);
    RightCell3(m, b, det, e, 0, 1, x00, x01, x02, y10, y11, y12);
    RightCell3(m, b, det, e, 0, 2, x00, x01, x02, y20, y21, y22);
    RightCell3(m, b, det, e, 1, 0, x10, x11, x12, y00, y01, y02);
    RightCell3(m, b, det, e, 1, 1, x10, x11, x12, y10, y11, y12);
    RightCell3(m, b, det, e, 1, 2, x10, x11, x12, y20, y21, y22);
    RightCell3(m, b, det, e, 2, 0, x20, x21, x22, y00, y01, y02);
    RightCell3(m, b, det, e, 2, 1, x20, x21, x22, y10, y11, y12);
    RightCell3(m, b, det, e, 2, 2, x20, x21, x22, y20, y21, y22);
    Mat3Eq(Product(m, b), IdentityMatrix(3).value);
  }

  /** b times m is the identity under the same layout, when column j of m against
      column i of y gives det on the diagonal and 0 off it. */
  lemma LeftIdentityCells3(m: Mat, b: Mat, det: real, e: real, x00: real, x01: real, x02: real, x10: real, x11: real, x12: real,
      x20: real, x21: real, x22: real, y00: real, y01: real, y02: real, y10: real, y11: real,
      y12: real, y20: real, y21: real, y22: real)
    requires m.Valid() && b.Valid() && m.rows == m.cols == b.rows == b.cols == 3
    requires det * e == 1.0
    requires m.At(0, 0) == x00 && m.At(0, 1) == x01 && m.At(0, 2) == x02
    requires m.At(1, 0) == x10 && m.At(1, 1) == x11 && m.At(1, 2) == x12
    requires m.At(2, 0) == x20 && m.At(2, 1) == x21 && m.At(2, 2) == x22
    requires b.At(0, 0) == y00 * e && b.At(0, 1) == y10 * e && b.At(0, 2) == y20 * e
    requires b.At(1, 0) == y01 * e && b.At(1, 1) == y11 * e && b.At(1, 2) == y21 * e
    requires b.At(2, 0) == y02 * e && b.At(2, 1) == y12 * e && b.At(2, 2) == y22 * e
    requires x00 * y00 + x10 * y10 + x20 * y20 == det
    requires x01 * y00 + x11 * y10 + x21 * y20 == 0.0
    requires x02 * y00 + x12 * y10 + x22 * y20 == 0.0
    requires x00 * y01 + x10 * y11 + x20 * y21 == 0.0
    requires x01 * y01 + x11 * y11 + x21 * y21 == det
    requires x02 * y01 + x12 * y11 + x22 * y21 == 0.0
    requires x00 * y02 + x10 * y12 + x20 * y22 == 0.0
    requires x01 * y02 + x11 * y12 + x21 * y22 == 0.0
    requires x02 * y02 + x12 * y12 + x22 * y22 == det
    ensures Product(b, m) == IdentityMatrix(3).value
  {
    LeftCell3(m, b, det, e, 0, 0, x00, x10, x20, y00, y10, y20);
    LeftCell3(m, b, det, e, 0, 1, x01, x11, x21, y00, y10, y20);
    LeftCell3(m, b, det, e, 0, 2, x02, x12, x22, y00, y10, y20);
    LeftCell3(m, b, det, e, 1, 0, x00, x10, x20, y01, y11, y21);
    LeftCell3(m, b, det, e, 1, 1, x01, x11, x21, y01, y11, y21);
    LeftCell3(m, b, det, e, 1, 2, x02, x12, x22, y01, y11, y21);
    LeftCell3(m, b, det, e, 2, 0, x00, x10, x20, y02, y12, y22);
    LeftCell3(m, b, det, e, 2, 1, x01, x11, x21, y02, y12, y22);
    LeftCell3(m, b, det, e, 2, 2, x02, x12, x22, y02, y12, y22);
    Mat3Eq(Product(b, m), IdentityMatrix(3).value);
  }

  /** m times its scaled adjugate is the identity when e is the reciprocal of det(m):
      row i of m against cofactor row j is a triple product of rows of m. */
  lemma AdjugateRight3(m: Mat, b: Mat, det: real, e: real)
    requires m.Valid() && b.Valid() && m.rows == m.cols == b.rows == b.cols == 3
    requires det == SarrusOf(m.data) && det * e == 1.0 && ScaledAdjugate3(m, b, e)
    ensures Product(m, b) == IdentityMatrix(3).value
  {
    var s := m.data;
    var x00, x01, x02, x10, x11, x12, x20, x21, x22 := s[0], s[1], s[2], s[3], s[4], s[5], s[6], s[7], s[8];
    var y00, y01, y02 := AdjugateColumn3(m, b, e, 0, x10, x11, x12, x20, x21, x22);
    var y10, y11, y12 := AdjugateColumn3(m, b, e, 1, x20, x21, x22, x00, x01, x02);
    var y20, y21, y22 := AdjugateColumn3(m, b, e, 2, x00, x01, x02, x10, x11, x12);
    TripleProduct(x00, x01, x02, x10, x11, x12, x20, x21, x22, y00, y01, y02);
    TripleProduct(x10, x11, x12, x20, x21, x22, x00, x01, x02, y10, y11, y12);
    TripleProduct(x20, x21, x22, x00, x01, x02, x10, x11, x12, y20, y21, y22);
    SarrusSymmetries(x00, x01, x02, x10, x11, x12, x20, x21, x22);
    RightIdentityCells3(m, b, det, e, x00, x01, x02, x10, x11, x12, x20, x21, x22,
                        y00, y01, y02, y10, y11, y12, y20, y21, y22);
  }

  /** The scaled adjugate times m is the identity when e is the reciprocal of det(m):
      cofactor column i is the cross product of the other two columns of m. */
  lemma AdjugateLeft3(m: Mat, b: Mat, det: real, e: real)
    requires m.Valid() && b.Valid() && m.rows == m.cols == b.rows == b.cols == 3
    requires det == SarrusOf(m.data) && det * e == 1.0 && ScaledAdjugate3(m, b, e)
    ensures Product(b, m) == IdentityMatrix(3).value
  {
    var s := m.data;
    var x00, x01, x02, x10, x11, x12, x20, x21, x22 := s[0], s[1], s[2], s[3], s[4], s[5], s[6], s[7], s[8];
    var y00, y01, y02 := AdjugateColumn3(m, b, e, 0, x10, x11, x12, x20, x21, x22);
    var y10, y11, y12 := AdjugateColumn3(m, b, e, 1, x20, x21, x22, x00, x01, x02);
    var y20, y21, y22 := AdjugateColumn3(m, b, e, 2, x00, x01, x02, x10, x11, x12);
    TripleProduct(x00, x10, x20, x01, x11, x21, x02, x12, x22, y00, y10, y20);
    TripleProduct(x01, x11, x21, x02, x12, x22, x00, x10, x20, y01, y11, y21);
    TripleProduct(x02, x12, x22, x00, x10, x20, x01, x11, x21, y02, y12, y22);
    SarrusSymmetries(x00, x10, x20, x01, x11, x21, x02, x12, x22);
    SarrusSymmetries(x00, x01, x02, x10, x11, x12, x20, x21, x22);
    LeftIdentityCells3(m, b, det, e, x00, x01, x02, x10, x11, x12, x20, x21, x22,
                       y00, y01, y02, y10, y11, y12, y20, y21, y22);
  }

  /** For a 3 x 3 matrix with non-zero determinant, `m.dot(m.inverse())` and
      `m.inverse().dot(m)` are both the identity. At this size `get_determinant()`
      and the signed minors of `inverse()` go through the recursive expansion. */
  lemma Inverse3x3(m: Mat)
    requires m.Valid() && m.rows == m.cols == 3 && Det(m) != 0.0
    ensures Inverse(m).Ok?
    ensures Product(m, Inverse(m).value) == IdentityMatrix(3).value
    ensures Product(Inverse(m).value, m) == IdentityMatrix(3).value
  {
    var e := 1.0 / Det(m);
    DetSarrusOf(m);
    Reciprocal(Det(m), e);
    InverseCell3(m, e, 0, 0);
    var inv := Inverse(m).value;
    forall r, c | 0 <= r < 3 && 0 <= c < 3
      ensures inv.At(r, c) == CofactorOf3(m.data, c, r) * e
    {
      InverseCell3(m, e, r, c);
    }
    AdjugateRight3(m, inv, Det(m), e);
    AdjugateLeft3(m, inv, Det(m), e);
  }
}
