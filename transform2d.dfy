/** Affine transforms of the plane in homogeneous coordinates (pythonista3d/transform2d.py).

    Each transform is a literal 3 x 3 matrix whose last row is [0, 0, 1]. A point
    (x, y) is padded to the column [x, y, 1], multiplied on the left by the matrix,
    and the first two cells of the product are the new point. Cosine and sine are
    parameters `c` and `s`; nothing here assumes c*c + s*s == 1 unless a lemma says so.

    The point helpers read the point's components to build the column; the code as
    written asks the point for an `as_list` it does not have (see MatrixSpec's
    PaddedColumnAsWritten and ApplyAsWritten below). */
module Transforms2D {
  import opened Errors
  import opened Points
  import opened MatrixSpec
  import opened MatrixTheorems
  import opened Matrices

  /** `ReflectionLine2D`: the line (or point) reflected over. */
  datatype ReflectionLine2D = LineX | LineY | Origin | LineXY

  /** A 3 x 3 matrix whose last row is [0, 0, 1]: it keeps a padded point's 1. */
  predicate Affine2(m: Mat) {
    m.Valid() && m.rows == 3 && m.cols == 3 &&
    m.At(2, 0) == 0.0 && m.At(2, 1) == 0.0 && m.At(2, 2) == 1.0
  }

  /** The 3 x 3 identity, `identity_matrix(3)`. */
  ghost function Identity3(): (m: Mat)
    ensures Affine2(m)
    ensures m == Mat(3, 3, [1.0, 0.0, 0.0, 0.0, 1.0, 0.0, 0.0, 0.0, 1.0])
  {
    var id := IdentityMatrix(3).value;
    Cells3(id);
    id
  }

  // ---------------------------------------------------------------------------
  // Matrix factories

  /** `rotation_matrix(rads)` with c = cos(rads), s = sin(rads). */
  function RotationMatrix(c: real, s: real): (m: Mat)
    ensures Affine2(m)
  {
    Mat(3, 3, [c, -s, 0.0,
               s, c, 0.0,
               0.0, 0.0, 1.0])
  }

  /** `scaling_matrix(xscale, yscale)` */
  function ScalingMatrix(xscale: real, yscale: real): (m: Mat)
    ensures Affine2(m)
  {
    Mat(3, 3, [xscale, 0.0, 0.0,
               0.0, yscale, 0.0,
               0.0, 0.0, 1.0])
  }

  /** `shearing_matrix(horizontal, vertical)` */
  function ShearingMatrix(horizontal: real, vertical: real): (m: Mat)
    ensures Affine2(m)
  {
    Mat(3, 3, [1.0, horizontal, 0.0,
               vertical, 1.0, 0.0,
               0.0, 0.0, 1.0])
  }

  /** `translation_matrix(dx, dy)` */
  function TranslationMatrix(dx: real, dy: real): (m: Mat)
    ensures Affine2(m)
  {
    Mat(3, 3, [1.0, 0.0, dx,
               0.0, 1.0, dy,
               0.0, 0.0, 1.0])
  }

  /** `reflection_matrix(line)`: the entry of the table for `line`. */
  function ReflectionMatrix(line: ReflectionLine2D): (m: Mat)
    ensures Affine2(m)
  {
    match line
    case LineX => Mat(3, 3, [1.0, 0.0, 0.0, 0.0, -1.0, 0.0, 0.0, 0.0, 1.0])
    case LineY => Mat(3, 3, [-1.0, 0.0, 0.0, 0.0, 1.0, 0.0, 0.0, 0.0, 1.0])
    case Origin => Mat(3, 3, [-1.0, 0.0, 0.0, 0.0, -1.0, 0.0, 0.0, 0.0, 1.0])
    case LineXY => Mat(3, 3, [0.0, 1.0, 0.0, 1.0, 0.0, 0.0, 0.0, 0.0, 1.0])
  }

  // ---------------------------------------------------------------------------
  // Applying a matrix to a point

  /** The shared body of the point helpers: pad the point with one 1, multiply on the
      left by t, keep the first two cells. A point that is not 2-dimensional gives a
      column of the wrong height, and `dot` raises SizeMismatch. */
  ghost function ApplyMatrix(t: Mat, p: Point): (r: Result<Point>)
    requires Affine2(t) && p.Valid()
    ensures r.Ok? <==> p.ndims == 2
    ensures r.Err? ==> r.error == SizeMismatch
  {
    var v := PaddedColumn(p);
    if t.cols != v.rows then Err(SizeMismatch)
    else
      var q := Product(t, v);
      Ok(Point2D(q.data[0], q.data[1]))
  }

  /** What `Apply` computes for a plane point: its affine image under t. */
  lemma ApplyImage(t: Mat, p: Point)
    requires Affine2(t) && p.Valid() && p.ndims == 2
    ensures ApplyMatrix(t, p) == Ok(Point2D(t.At(0, 0) * p.X() + t.At(0, 1) * p.Y() + t.At(0, 2),
                                      t.At(1, 0) * p.X() + t.At(1, 1) * p.Y() + t.At(1, 2)))
  {
    ApplyCells(t, p);
  }

  /** The point helpers as written: `from_point_with_padding` fails on every point,
      so no helper ever reaches the product. */
  function ApplyAsWritten(t: Mat, p: Point): (r: Result<Point>)
    requires Affine2(t) && p.Valid()
    ensures r.Err? && r.error == MissingAttribute
  {
    var v := PaddedColumnAsWritten(p);
    if v.Err? then Err(v.error) else Err(SizeMismatch)
  }

  /** `rotate(pt, rads)` */
  ghost function RotatePoint(p: Point, c: real, s: real): (r: Result<Point>)
    requires p.Valid()
    ensures p.ndims != 2 ==> r == Err(SizeMismatch)
    ensures p.ndims == 2 ==> r == Ok(Point2D(c * p.X() - s * p.Y(), s * p.X() + c * p.Y()))
  {
    var t := RotationMatrix(c, s);
    if p.ndims != 2 then ApplyMatrix(t, p) else
    ApplyImage(t, p);
    assert
      t.At(0, 0) * p.X() + t.At(0, 1) * p.Y() + t.At(0, 2) == c * p.X() - s * p.Y() &&
      t.At(1, 0) * p.X() + t.At(1, 1) * p.Y() + t.At(1, 2) == s * p.X() + c * p.Y();
    ApplyMatrix(t, p)
  }

  /** `scale(pt, xscale, yscale)` */
  ghost function ScalePoint(p: Point, xscale: real, yscale: real): (r: Result<Point>)
    requires p.Valid()
    ensures p.ndims != 2 ==> r == Err(SizeMismatch)
    ensures p.ndims == 2 ==> r == Ok(Point2D(p.X() * xscale, p.Y() * yscale))
  {
    var t := ScalingMatrix(xscale, yscale);
    if p.ndims != 2 then ApplyMatrix(t, p) else
    ApplyImage(t, p);
    assert
      t.At(0, 0) * p.X() + t.At(0, 1) * p.Y() + t.At(0, 2) == p.X() * xscale &&
      t.At(1, 0) * p.X() + t.At(1, 1) * p.Y() + t.At(1, 2) == p.Y() * yscale;
    ApplyMatrix(t, p)
  }

  /** `shear(pt, horizontal, vertical)` */
  ghost function ShearPoint(p: Point, horizontal: real, vertical: real): (r: Result<Point>)
    requires p.Valid()
    ensures p.ndims != 2 ==> r == Err(SizeMismatch)
    ensures p.ndims == 2 ==> r == Ok(Point2D(p.X() + horizontal * p.Y(), vertical * p.X() + p.Y()))
  {
    var t := ShearingMatrix(horizontal, vertical);
    if p.ndims != 2 then ApplyMatrix(t, p) else
    ApplyImage(t, p);
    assert
      t.At(0, 0) * p.X() + t.At(0, 1) * p.Y() + t.At(0, 2) == p.X() + horizontal * p.Y() &&
      t.At(1, 0) * p.X() + t.At(1, 1) * p.Y() + t.At(1, 2) == vertical * p.X() + p.Y();
    ApplyMatrix(t, p)
  }

  /** `translate(pt, dx, dy)` */
  ghost function TranslatePoint(p: Point, dx: real, dy: real): (r: Result<Point>)
    requires p.Valid()
    ensures p.ndims != 2 ==> r == Err(SizeMismatch)
    ensures p.ndims == 2 ==> r == Ok(Point2D(p.X() + dx, p.Y() + dy))
  {
    var t := TranslationMatrix(dx, dy);
    if p.ndims != 2 then ApplyMatrix(t, p) else
    ApplyImage(t, p);
    ApplyMatrix(t, p)
  }

  /** `reflect(pt, line)` */
  ghost function ReflectPoint(p: Point, line: ReflectionLine2D): (r: Result<Point>)
    requires p.Valid()
    ensures p.ndims != 2 ==> r == Err(SizeMismatch)
    ensures p.ndims == 2 && line == LineX ==> r == Ok(Point2D(p.X(), -p.Y()))
    ensures p.ndims == 2 && line == LineY ==> r == Ok(Point2D(-p.X(), p.Y()))
    ensures p.ndims == 2 && line == Origin ==> r == Ok(Point2D(-p.X(), -p.Y()))
    ensures p.ndims == 2 && line == LineXY ==> r == Ok(Point2D(p.Y(), p.X()))
  {
    if p.ndims != 2 then ApplyMatrix(ReflectionMatrix(line), p) else
    ReflectionImage(p, line);
    ApplyMatrix(ReflectionMatrix(line), p)
  }

  /** The image of a plane point under each reflection matrix. */
  lemma ReflectionImage(p: Point, line: ReflectionLine2D)
    requires p.Valid() && p.ndims == 2
    ensures line == LineX ==> ApplyMatrix(ReflectionMatrix(line), p) == Ok(Point2D(p.X(), -p.Y()))
    ensures line == LineY ==> ApplyMatrix(ReflectionMatrix(line), p) == Ok(Point2D(-p.X(), p.Y()))
    ensures line == Origin ==> ApplyMatrix(ReflectionMatrix(line), p) == Ok(Point2D(-p.X(), -p.Y()))
    ensures line == LineXY ==> ApplyMatrix(ReflectionMatrix(line), p) == Ok(Point2D(p.Y(), p.X()))
  {
    match line
    case LineX => ReflectionLineImage(p, line, p.X(), -p.Y());
    case LineY => ReflectionLineImage(p, line, -p.X(), p.Y());
    case Origin => ReflectionLineImage(p, line, -p.X(), -p.Y());
    case LineXY => ReflectionLineImage(p, line, p.Y(), p.X());
  }

  /** One row of the reflection table applied to a plane point. */
  lemma ReflectionLineImage(p: Point, line: ReflectionLine2D, x: real, y: real)
    requires p.Valid() && p.ndims == 2
    requires line == LineX ==> x == p.X() && y == -p.Y()
    requires line == LineY ==> x == -p.X() && y == p.Y()
    requires line == Origin ==> x == -p.X() && y == -p.Y()
    requires line == LineXY ==> x == p.Y() && y == p.X()
    ensures ApplyMatrix(ReflectionMatrix(line), p) == Ok(Point2D(x, y))
  {
    var t := ReflectionMatrix(line);
    ApplyImage(t, p);
    assert t.At(0, 0) * p.X() + t.At(0, 1) * p.Y() + t.At(0, 2) == x;
    assert t.At(1, 0) * p.X() + t.At(1, 1) * p.Y() + t.At(1, 2) == y;
  }

  // ---------------------------------------------------------------------------
  // Composition and inverses

  /** The identity leaves every plane point where it is: a fresh builder's `apply`. */
  lemma ApplyIdentity(p: Point)
    requires p.Valid() && p.ndims == 2
    ensures ApplyMatrix(Identity3(), p) == Ok(p)
  {
    ApplyImage(Identity3(), p);
    assert p.vals == [p.X(), p.Y()];
  }

  /** Products of matrices with last row [0, 0, 1] keep that last row. */
  lemma AffineProduct(a: Mat, b: Mat)
    requires Affine2(a) && Affine2(b)
    ensures Affine2(Product(a, b))
  {
    Product3At(a, b, 2, 0);
    Product3At(a, b, 2, 1);
    Product3At(a, b, 2, 2);
  }

  /** Applying s * m is applying m, then s: a builder's matrix, applied once, does
      what its steps do one after the other. */
  lemma ApplyProduct(s: Mat, m: Mat, p: Point)
    requires Affine2(s) && Affine2(m) && p.Valid() && p.ndims == 2
    ensures Affine2(Product(s, m))
    ensures ApplyMatrix(m, p).Ok? && ApplyMatrix(Product(s, m), p) == ApplyMatrix(s, ApplyMatrix(m, p).value)
  {
    AffineProduct(s, m);
    ProductAssociative(s, m, PaddedColumn(p));
    PaddedImage(m, p);
  }

  /** The product of an affine matrix with a padded plane point is the padded image:
      its last cell is again 1. */
  lemma PaddedImage(m: Mat, p: Point)
    requires Affine2(m) && p.Valid() && p.ndims == 2
    ensures ApplyMatrix(m, p).Ok? && Product(m, PaddedColumn(p)) == PaddedColumn(ApplyMatrix(m, p).value)
  {
    var v := PaddedColumn(p);
    var q := Product(m, v);
    var w := PaddedColumn(ApplyMatrix(m, p).value);
    Product3At(m, v, 2, 0);
    assert q.At(2, 0) == 1.0 by {
      LastCell(m.At(2, 0), m.At(2, 1), m.At(2, 2), v.At(0, 0), v.At(1, 0), v.At(2, 0));
    }
    assert q.data == [q.data[0], q.data[1], q.data[2]];
    assert w.data == [w.data[0], w.data[1], w.data[2]];
  }

  /** The last row [0, 0, 1] against a column ending in 1. */
  lemma LastCell(m0: real, m1: real, m2: real, v0: real, v1: real, v2: real)
    requires m0 == 0.0 && m1 == 0.0 && m2 == 1.0 && v2 == 1.0
    ensures m0 * v0 + m1 * v1 + m2 * v2 == 1.0
  {
  }

  /** The helpers as written fail where the corrected ones move the point: the
      translation of the origin by (1, 2). */
  lemma ApplyAsWrittenFails()
    ensures ApplyAsWritten(TranslationMatrix(1.0, 2.0), Point2D()) == Err(MissingAttribute)
    ensures ApplyMatrix(TranslationMatrix(1.0, 2.0), Point2D()) == Ok(Point2D(1.0, 2.0))
  {
    ApplyImage(TranslationMatrix(1.0, 2.0), Point2D());
  }

  /** The padded column of a plane point, times t, holds the affine image of the point. */
  lemma ApplyCells(t: Mat, p: Point)
    requires Affine2(t) && p.Valid() && p.ndims == 2
    ensures PaddedColumn(p).rows == 3
    ensures Product(t, PaddedColumn(p)).data[0] == t.At(0, 0) * p.X() + t.At(0, 1) * p.Y() + t.At(0, 2)
    ensures Product(t, PaddedColumn(p)).data[1] == t.At(1, 0) * p.X() + t.At(1, 1) * p.Y() + t.At(1, 2)
  {
    var v := PaddedColumn(p);
    assert v.At(0, 0) == p.X() && v.At(1, 0) == p.Y() && v.At(2, 0) == 1.0;
    Product3At(t, v, 0, 0);
    Product3At(t, v, 1, 0);
  }

  // ---------------------------------------------------------------------------
  // The builder

  /** `Matrix(3, 3, [...])` over one of the factory lists. */
  method NewMatrix(m: Mat) returns (r: Matrix)
    requires Affine2(m)
    ensures fresh(r) && fresh(r.data) && r.Valid() && r.Value() == m
  {
    var cells := new real[9](k requires 0 <= k < 9 => m.data[k]);
    assert cells[..] == m.data;
    var made := Matrix.Create(3, 3, cells);
    r := made.value;
  }

  /** `Transform2DBuilder`: one matrix, replaced by `step * matrix` on every chained
      call. The builder only ever points at matrices it made itself, so a matrix
      handed out by `Build` is never written by a later step. */
  class Transform2DBuilder {
    var mtx: Matrix

    /** The builder's matrix is 3 x 3 with last row [0, 0, 1]. */
    ghost predicate Valid()
      reads this, mtx, mtx.data
    {
      mtx.Valid() && Affine2(mtx.Value())
    }

    /** `Transform2DBuilder()`: starts from `identity_matrix(3)`. */
    constructor ()
      ensures Valid() && fresh(mtx) && fresh(mtx.data)
      ensures mtx.Value() == Identity3()
    {
      var id := Matrix.IdentityMatrix(3);
      mtx := id.value;
    }

    /** The shared body of the chained calls: `self._mtx = step * self._mtx`. */
    method Push(step: Mat)
      requires Valid() && Affine2(step)
      modifies this
      ensures Valid() && fresh(mtx) && fresh(mtx.data)
      ensures mtx.Value() == Product(step, old(mtx.Value()))
    {
      var m := NewMatrix(step);
      var r := m.Dot(mtx);
      AffineProduct(step, mtx.Value());
      mtx := r.value;
    }

    /** `rotate(rads)` */
    method Rotate(c: real, s: real) returns (b: Transform2DBuilder)
      requires Valid()
      modifies this
      ensures b == this && Valid() && fresh(mtx) && fresh(mtx.data)
      ensures mtx.Value() == Product(RotationMatrix(c, s), old(mtx.Value()))
    {
      Push(RotationMatrix(c, s));
      return this;
    }

    /** `scale(xscale, yscale)` */
    method Scale(xscale: real, yscale: real) returns (b: Transform2DBuilder)
      requires Valid()
      modifies this
      ensures b == this && Valid() && fresh(mtx) && fresh(mtx.data)
      ensures mtx.Value() == Product(ScalingMatrix(xscale, yscale), old(mtx.Value()))
    {
      Push(ScalingMatrix(xscale, yscale));
      return this;
    }

    /** `shear(horizontal, vertical)` */
    method Shear(horizontal: real, vertical: real) returns (b: Transform2DBuilder)
      requires Valid()
      modifies this
      ensures b == this && Valid() && fresh(mtx) && fresh(mtx.data)
      ensures mtx.Value() == Product(ShearingMatrix(horizontal, vertical), old(mtx.Value()))
    {
      Push(ShearingMatrix(horizontal, vertical));
      return this;
    }

    /** `translate(dx, dy)` */
    method Translate(dx: real, dy: real) returns (b: Transform2DBuilder)
      requires Valid()
      modifies this
      ensures b == this && Valid() && fresh(mtx) && fresh(mtx.data)
      ensures mtx.Value() == Product(TranslationMatrix(dx, dy), old(mtx.Value()))
    {
      Push(TranslationMatrix(dx, dy));
      return this;
    }

    /** `reflect(line)` */
    method Reflect(line: ReflectionLine2D) returns (b: Transform2DBuilder)
      requires Valid()
      modifies this
      ensures b == this && Valid() && fresh(mtx) && fresh(mtx.data)
      ensures mtx.Value() == Product(ReflectionMatrix(line), old(mtx.Value()))
    {
      Push(ReflectionMatrix(line));
      return this;
    }

    /** `build()`: a copy of the matrix, not the matrix itself. */
    method Build() returns (m: Matrix)
      requires Valid()
      ensures fresh(m) && fresh(m.data) && m.Valid() && m.Value() == mtx.Value()
    {
      m := mtx.Clone();
    }

    /** `apply(pt)`, reading the point's components: pad, multiply, keep two cells. */
    method Apply(p: Point) returns (r: Result<Point>)
      requires Valid() && p.Valid()
      ensures r == ApplyMatrix(mtx.Value(), p)
    {
      var column := Matrix.FromPointWithPadding(p);
      var product := mtx.Dot(column);
      if product.Err? {
        return Err(product.error);
      }
      var cells := product.value.AsList();
      return Ok(Point2D(cells[0], cells[1]));
    }
  }
}

/** Inverses of the transforms of the plane: on the matrices and on the points. */
module Transform2DTheorems {
  import opened Errors
  import opened Points
  import opened MatrixSpec
  import opened MatrixTheorems
  import opened Transforms2D

  /** The affine matrix with top rows [a, b, c] and [d, e, f]. */
  function Affine(a: real, b: real, c: real, d: real, e: real, f: real): (m: Mat)
    ensures Affine2(m)
  {
    Mat(3, 3, [a, b, c, d, e, f, 0.0, 0.0, 1.0])
  }

  /** Composing two affine maps: the product of their matrices is the affine
      matrix of the composed coefficients. */
  lemma AffineCompose(a: real, b: real, c: real, d: real, e: real, f: real,
                      g: real, h: real, i: real, j: real, k: real, l: real)
    ensures Product(Affine(a, b, c, d, e, f), Affine(g, h, i, j, k, l)) ==
      Affine(a * g + b * j, a * h + b * k, a * i + b * l + c, d * g + e * j, d * h + e * k, d * i + e * l + f)
  {
    var m, n := Affine(a, b, c, d, e, f), Affine(g, h, i, j, k, l);
    Product3Row(m, n, 0);
    Product3Row(m, n, 1);
    Product3Row(m, n, 2);
    AffineRowSums(a, b, c, g, h, i, j, k, l);
    AffineRowSums(d, e, f, g, h, i, j, k, l);
    AffineRowSums(0.0, 0.0, 1.0, g, h, i, j, k, l);
    Mat3Eq(Product(m, n), Affine(a * g + b * j, a * h + b * k, a * i + b * l + c, d * g + e * j, d * h + e * k, d * i + e * l + f));
  }

  /** A row [x, y, z] times the affine matrix of (g, h, i, j, k, l). */
  lemma AffineRowSums(x: real, y: real, z: real, g: real, h: real, i: real, j: real, k: real, l: real)
    ensures x * g + y * j + z * 0.0 == x * g + y * j
    ensures x * h + y * k + z * 0.0 == x * h + y * k
    ensures x * i + y * l + z * 1.0 == x * i + y * l + z
  {
  }

  /** Row i of a product of two 3 x 3 matrices, written out. */
  lemma Product3Row(m: Mat, n: Mat, i: int)
    requires m.Valid() && n.Valid() && m.rows == m.cols == n.rows == n.cols == 3 && 0 <= i < 3
    ensures Product(m, n).At(i, 0) == m.At(i, 0) * n.At(0, 0) + m.At(i, 1) * n.At(1, 0) + m.At(i, 2) * n.At(2, 0)
    ensures Product(m, n).At(i, 1) == m.At(i, 0) * n.At(0, 1) + m.At(i, 1) * n.At(1, 1) + m.At(i, 2) * n.At(2, 1)
    ensures Product(m, n).At(i, 2) == m.At(i, 0) * n.At(0, 2) + m.At(i, 1) * n.At(1, 2) + m.At(i, 2) * n.At(2, 2)
  {
    Product3At(m, n, i, 0);
    Product3At(m, n, i, 1);
    Product3At(m, n, i, 2);
  }

  /** Affine matrices with equal coefficients are equal. */
  lemma SameAffine(a: real, b: real, c: real, d: real, e: real, f: real,
                   a2: real, b2: real, c2: real, d2: real, e2: real, f2: real)
    requires a == a2 && b == b2 && c == c2 && d == d2 && e == e2 && f == f2
    ensures Affine(a, b, c, d, e, f) == Affine(a2, b2, c2, d2, e2, f2)
  {
  }

  /** Each reflection undoes itself. */
  lemma ReflectionSelfInverse(line: ReflectionLine2D)
    ensures Product(ReflectionMatrix(line), ReflectionMatrix(line)) == Identity3()
  {
    match line
    case LineX => LinearInvolution(1.0, 0.0, 0.0, -1.0);
    case LineY => LinearInvolution(-1.0, 0.0, 0.0, 1.0);
    case Origin => LinearInvolution(-1.0, 0.0, 0.0, -1.0);
    case LineXY => LinearInvolution(0.0, 1.0, 1.0, 0.0);
  }

  /** An affine map with no translation whose 2 x 2 part squares to the
      identity is its own inverse. */
  lemma LinearInvolution(a: real, b: real, d: real, e: real)
    requires a * a + b * d == 1.0 && a * b + b * e == 0.0
    requires d * a + e * d == 0.0 && d * b + e * e == 1.0
    ensures Product(Affine(a, b, 0.0, d, e, 0.0), Affine(a, b, 0.0, d, e, 0.0)) == Identity3()
  {
    AffineCompose(a, b, 0.0, d, e, 0.0, a, b, 0.0, d, e, 0.0);
    SameAffine(a * a + b * d, a * b + b * e, a * 0.0 + b * 0.0 + 0.0,
               d * a + e * d, d * b + e * e, d * 0.0 + e * 0.0 + 0.0,
               1.0, 0.0, 0.0, 0.0, 1.0, 0.0);
  }

  /** Translating by (-dx, -dy) undoes translating by (dx, dy). */
  lemma TranslationInverse(dx: real, dy: real)
    ensures Product(TranslationMatrix(-dx, -dy), TranslationMatrix(dx, dy)) == Identity3()
  {
    var ndx, ndy := -dx, -dy;
    AffineCompose(1.0, 0.0, ndx, 0.0, 1.0, ndy, 1.0, 0.0, dx, 0.0, 1.0, dy);
    SameAffine(1.0 * 1.0 + 0.0 * 0.0, 1.0 * 0.0 + 0.0 * 1.0, 1.0 * dx + 0.0 * dy + ndx,
               0.0 * 1.0 + 1.0 * 0.0, 0.0 * 0.0 + 1.0 * 1.0, 0.0 * dx + 1.0 * dy + ndy,
               1.0, 0.0, 0.0, 0.0, 1.0, 0.0);
  }

  /** Scaling by the reciprocals (kx, ky) undoes scaling by (xscale, yscale). */
  lemma ScalingInverse(xscale: real, yscale: real, kx: real, ky: real)
    requires xscale * kx == 1.0 && yscale * ky == 1.0
    ensures Product(ScalingMatrix(kx, ky), ScalingMatrix(xscale, yscale)) == Identity3()
  {
    AffineCompose(kx, 0.0, 0.0, 0.0, ky, 0.0, xscale, 0.0, 0.0, 0.0, yscale, 0.0);
    SameAffine(kx * xscale + 0.0 * 0.0, kx * 0.0 + 0.0 * yscale, kx * 0.0 + 0.0 * 0.0 + 0.0,
               0.0 * xscale + ky * 0.0, 0.0 * 0.0 + ky * yscale, 0.0 * 0.0 + ky * 0.0 + 0.0,
               1.0, 0.0, 0.0, 0.0, 1.0, 0.0);
  }

  /** Rotating by -rads undoes rotating by rads: cos is even, sin odd, cos^2 + sin^2 = 1. */
  lemma RotationInverse(c: real, s: real)
    requires c * c + s * s == 1.0
    ensures Product(RotationMatrix(c, -s), RotationMatrix(c, s)) == Identity3()
  {
    var t := -s;
    AffineCompose(c, s, 0.0, t, c, 0.0, c, t, 0.0, s, c, 0.0);
    SameAffine(c * c + s * s, c * t + s * c, c * 0.0 + s * 0.0 + 0.0,
               t * c + c * s, t * t + c * c, t * 0.0 + c * 0.0 + 0.0,
               1.0, 0.0, 0.0, 0.0, 1.0, 0.0);
  }

  /** A reflected point reflected again is the point. */
  lemma ReflectPointTwice(p: Point, line: ReflectionLine2D)
    requires p.Valid() && p.ndims == 2
    ensures ReflectPoint(p, line).Ok? && ReflectPoint(ReflectPoint(p, line).value, line) == Ok(p)
  {
    assert p.vals == [p.X(), p.Y()];
  }

  /** A translated point translated back is the point. */
  lemma TranslatePointBack(p: Point, dx: real, dy: real)
    requires p.Valid() && p.ndims == 2
    ensures TranslatePoint(p, dx, dy).Ok? && TranslatePoint(TranslatePoint(p, dx, dy).value, -dx, -dy) == Ok(p)
  {
    assert p.vals == [p.X(), p.Y()];
  }
}
