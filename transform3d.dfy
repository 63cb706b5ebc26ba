/** Affine transforms of space in homogeneous coordinates (pythonista3d/transform3d.py).

    Each transform is a literal 4 x 4 matrix whose last row is [0, 0, 0, 1]. A point
    (x, y, z) is padded to the column [x, y, z, 1], multiplied on the left by the
    matrix, and the first three cells of the product are the new point. Cosine and
    sine are parameters `c` and `s`. As in the plane, the point helpers read the
    point's components to build the column. */
module Transforms3D {
  import opened Errors
  import opened Points
  import opened MatrixSpec
  import opened MatrixTheorems

  /** `ReflectionLine3D`: the plane (or point) reflected over. */
  datatype ReflectionLine3D = Origin | PlaneXY | PlaneYZ | PlaneZX

  /** `RotationAxis` */
  datatype RotationAxis = AxisX | AxisY | AxisZ

  /** A 4 x 4 matrix whose last row is [0, 0, 0, 1]: it keeps a padded point's 1. */
  predicate Affine3(m: Mat) {
    m.Valid() && m.rows == 4 && m.cols == 4 &&
    m.At(3, 0) == 0.0 && m.At(3, 1) == 0.0 && m.At(3, 2) == 0.0 && m.At(3, 3) == 1.0
  }

  /** The 4 x 4 identity, `identity_matrix(4)`. */
  ghost function Identity4(): (m: Mat)
    ensures Affine3(m)
    ensures m == Mat(4, 4, [1.0, 0.0, 0.0, 0.0, 0.0, 1.0, 0.0, 0.0,
                            0.0, 0.0, 1.0, 0.0, 0.0, 0.0, 0.0, 1.0])
  {
    var id := IdentityMatrix(4).value;
    Cells4(id);
    id
  }

  // ---------------------------------------------------------------------------
  // Matrix factories

  /** `rotation_matrix(axis, rads)` with c = cos(rads), s = sin(rads). An argument
      equal to none of the three axes (None here) leaves the result None. */
  function RotationMatrix(axis: Option<RotationAxis>, c: real, s: real): (m: Option<Mat>)
    ensures m.Some? <==> axis.Some?
    ensures m.Some? ==> Affine3(m.value)
  {
    match axis
    case None => None
    case Some(AxisX) => Some(Mat(4, 4, [1.0, 0.0, 0.0, 0.0,
                                        0.0, c, -s, 0.0,
                                        0.0, s, c, 0.0,
                                        0.0, 0.0, 0.0, 1.0]))
    case Some(AxisY) => Some(Mat(4, 4, [c, 0.0, s, 0.0,
                                        0.0, 1.0, 0.0, 0.0,
                                        -s, 0.0, c, 0.0,
                                        0.0, 0.0, 0.0, 1.0]))
    case Some(AxisZ) => Some(Mat(4, 4, [c, -s, 0.0, 0.0,
                                        s, c, 0.0, 0.0,
                                        0.0, 0.0, 1.0, 0.0,
                                        0.0, 0.0, 0.0, 1.0]))
  }

  /** `scaling_matrix(xscale, yscale, zscale)` */
  function ScalingMatrix(xscale: real, yscale: real, zscale: real): (m: Mat)
    ensures Affine3(m)
  {
    Mat(4, 4, [xscale, 0.0, 0.0, 0.0,
               0.0, yscale, 0.0, 0.0,
               0.0, 0.0, zscale, 0.0,
               0.0, 0.0, 0.0, 1.0])
  }

  /** `shearing_matrix(xy, xz, yx, yz, zx, zy)`, every amount 0 by default. */
  function ShearingMatrix(xy: real := 0.0, xz: real := 0.0, yx: real := 0.0,
                          yz: real := 0.0, zx: real := 0.0, zy: real := 0.0): (m: Mat)
    ensures Affine3(m)
  {
    Mat(4, 4, [1.0, yx, zx, 0.0,
               xy, 1.0, zy, 0.0,
               xz, yz, 1.0, 0.0,
               0.0, 0.0, 0.0, 1.0])
  }

  /** `translation_matrix(dx, dy, dz)` */
  function TranslationMatrix(dx: real, dy: real, dz: real): (m: Mat)
    ensures Affine3(m)
  {
    Mat(4, 4, [1.0, 0.0, 0.0, dx,
               0.0, 1.0, 0.0, dy,
               0.0, 0.0, 1.0, dz,
               0.0, 0.0, 0.0, 1.0])
  }

  /** `reflection_matrix(plane)`: the entry of the table for `plane`. */
  function ReflectionMatrix(plane: ReflectionLine3D): (m: Mat)
    ensures Affine3(m)
  {
    match plane
    case PlaneXY => Mat(4, 4, [1.0, 0.0, 0.0, 0.0, 0.0, 1.0, 0.0, 0.0,
                               0.0, 0.0, -1.0, 0.0, 0.0, 0.0, 0.0, 1.0])
    case PlaneYZ => Mat(4, 4, [-1.0, 0.0, 0.0, 0.0, 0.0, 1.0, 0.0, 0.0,
                               0.0, 0.0, 1.0, 0.0, 0.0, 0.0, 0.0, 1.0])
    case PlaneZX => Mat(4, 4, [1.0, 0.0, 0.0, 0.0, 0.0, -1.0, 0.0, 0.0,
                               0.0, 0.0, 1.0, 0.0, 0.0, 0.0, 0.0, 1.0])
    case Origin => Mat(4, 4, [-1.0, 0.0, 0.0, 0.0, 0.0, -1.0, 0.0, 0.0,
                              0.0, 0.0, -1.0, 0.0, 0.0, 0.0, 0.0, 1.0])
  }

  // ---------------------------------------------------------------------------
  // Applying a matrix to a point

  /** The shared body of the point helpers: pad the point with one 1, multiply on the
      left by t, keep the first three cells. A point that is not 3-dimensional gives
      a column of the wrong height, and `dot` raises SizeMismatch. */
  ghost function ApplyMatrix(t: Mat, p: Point): (r: Result<Point>)
    requires Affine3(t) && p.Valid()
    ensures r.Ok? <==> p.ndims == 3
    ensures r.Err? ==> r.error == SizeMismatch
  {
    var v := PaddedColumn(p);
    if t.cols != v.rows then Err(SizeMismatch)
    else
      var q := Product(t, v);
      Ok(Point3D(q.data[0], q.data[1], q.data[2]))
  }

  /** Row i of t against the padded point (x, y, z, 1). */
  function RowImage(t: Mat, i: int, p: Point): real
    requires t.Valid() && t.rows == 4 && t.cols == 4 && 0 <= i < 4 && p.Valid() && p.ndims == 3
  {
    t.At(i, 0) * p.X() + t.At(i, 1) * p.Y() + t.At(i, 2) * p.Z() + t.At(i, 3)
  }

  /** What `ApplyMatrix` computes for a point in space: its affine image under t. */
  lemma ApplyImage(t: Mat, p: Point)
    requires Affine3(t) && p.Valid() && p.ndims == 3
    ensures ApplyMatrix(t, p) == Ok(Point3D(RowImage(t, 0, p), RowImage(t, 1, p), RowImage(t, 2, p)))
  {
    ApplyCells(t, p);
  }

  /** The first three cells of t times the padded point. */
  lemma ApplyCells(t: Mat, p: Point)
    requires Affine3(t) && p.Valid() && p.ndims == 3
    ensures PaddedColumn(p).rows == 4
    ensures Product(t, PaddedColumn(p)).data[0] == RowImage(t, 0, p)
    ensures Product(t, PaddedColumn(p)).data[1] == RowImage(t, 1, p)
    ensures Product(t, PaddedColumn(p)).data[2] == RowImage(t, 2, p)
  {
    var v := PaddedColumn(p);
    assert v.At(0, 0) == p.X() && v.At(1, 0) == p.Y() && v.At(2, 0) == p.Z() && v.At(3, 0) == 1.0;
    Product4At(t, v, 0, 0);
    Product4At(t, v, 1, 0);
    Product4At(t, v, 2, 0);
  }

  /** `rotate(pt, axis, rads)`: a missing rotation matrix (None) cannot be multiplied,
      and the operator raises TypeError. Each rotation keeps the coordinate along its
      axis. */
  ghost function RotatePoint(p: Point, axis: Option<RotationAxis>, c: real, s: real): (r: Result<Point>)
    requires p.Valid()
    ensures axis.None? ==> r == Err(UnsupportedOperand)
    ensures axis.Some? && p.ndims != 3 ==> r == Err(SizeMismatch)
    ensures axis == Some(AxisX) && p.ndims == 3 ==>
      r == Ok(Point3D(p.X(), c * p.Y() - s * p.Z(), s * p.Y() + c * p.Z()))
    ensures axis == Some(AxisY) && p.ndims == 3 ==>
      r == Ok(Point3D(c * p.X() + s * p.Z(), p.Y(), c * p.Z() - s * p.X()))
    ensures axis == Some(AxisZ) && p.ndims == 3 ==>
      r == Ok(Point3D(c * p.X() - s * p.Y(), s * p.X() + c * p.Y(), p.Z()))
  {
    var t := RotationMatrix(axis, c, s);
    if t.None? then Err(UnsupportedOperand)
    else if p.ndims != 3 then ApplyMatrix(t.value, p)
    else
      RotationImage(p, axis.value, c, s);
      ApplyMatrix(t.value, p)
  }

  /** The image of a point in space under each rotation matrix. */
  lemma RotationImage(p: Point, axis: RotationAxis, c: real, s: real)
    requires p.Valid() && p.ndims == 3
    ensures axis == AxisX ==>
      ApplyMatrix(RotationMatrix(Some(axis), c, s).value, p) ==
      Ok(Point3D(p.X(), c * p.Y() - s * p.Z(), s * p.Y() + c * p.Z()))
    ensures axis == AxisY ==>
      ApplyMatrix(RotationMatrix(Some(axis), c, s).value, p) ==
      Ok(Point3D(c * p.X() + s * p.Z(), p.Y(), c * p.Z() - s * p.X()))
    ensures axis == AxisZ ==>
      ApplyMatrix(RotationMatrix(Some(axis), c, s).value, p) ==
      Ok(Point3D(c * p.X() - s * p.Y(), s * p.X() + c * p.Y(), p.Z()))
  {
    match axis
    case AxisX => RotationXImage(p, c, s);
    case AxisY => RotationYImage(p, c, s);
    case AxisZ => RotationZImage(p, c, s);
  }

  lemma RotationXImage(p: Point, c: real, s: real)
    requires p.Valid() && p.ndims == 3
    ensures ApplyMatrix(RotationMatrix(Some(AxisX), c, s).value, p) == Ok(Point3D(p.X(), c * p.Y() - s * p.Z(), s * p.Y() + c * p.Z()))
  {
    var t := RotationMatrix(Some(AxisX), c, s).value;
    ApplyImage(t, p);
    assert RowImage(t, 0, p) == p.X() && RowImage(t, 1, p) == c * p.Y() - s * p.Z() &&
      RowImage(t, 2, p) == s * p.Y() + c * p.Z();
  }

  lemma RotationYImage(p: Point, c: real, s: real)
    requires p.Valid() && p.ndims == 3
    ensures ApplyMatrix(RotationMatrix(Some(AxisY), c, s).value, p) == Ok(Point3D(c * p.X() + s * p.Z(), p.Y(), c * p.Z() - s * p.X()))
  {
    var t := RotationMatrix(Some(AxisY), c, s).value;
    ApplyImage(t, p);
    assert RowImage(t, 0, p) == c * p.X() + s * p.Z() && RowImage(t, 1, p) == p.Y() &&
      RowImage(t, 2, p) == c * p.Z() - s * p.X();
  }

  lemma RotationZImage(p: Point, c: real, s: real)
    requires p.Valid() && p.ndims == 3
    ensures ApplyMatrix(RotationMatrix(Some(AxisZ), c, s).value, p) == Ok(Point3D(c * p.X() - s * p.Y(), s * p.X() + c * p.Y(), p.Z()))
  {
    var t := RotationMatrix(Some(AxisZ), c, s).value;
    ApplyImage(t, p);
    assert RowImage(t, 0, p) == c * p.X() - s * p.Y() && RowImage(t, 1, p) == s * p.X() + c * p.Y() &&
      RowImage(t, 2, p) == p.Z();
  }

  /** `scale(pt, xscale, yscale, zscale)` */
  ghost function ScalePoint(p: Point, xscale: real, yscale: real, zscale: real): (r: Result<Point>)
    requires p.Valid()
    ensures p.ndims != 3 ==> r == Err(SizeMismatch)
    ensures p.ndims == 3 ==> r == Ok(Point3D(p.X() * xscale, p.Y() * yscale, p.Z() * zscale))
  {
    var t := ScalingMatrix(xscale, yscale, zscale);
    if p.ndims != 3 then ApplyMatrix(t, p)
    else
      ApplyImage(t, p);
      assert RowImage(t, 0, p) == p.X() * xscale && RowImage(t, 1, p) == p.Y() * yscale &&
        RowImage(t, 2, p) == p.Z() * zscale;
      ApplyMatrix(t, p)
  }

  /** `shear(pt, xy, xz, yx, yz, zx, zy)` */
  ghost function ShearPoint(p: Point, xy: real := 0.0, xz: real := 0.0, yx: real := 0.0,
                            yz: real := 0.0, zx: real := 0.0, zy: real := 0.0): (r: Result<Point>)
    requires p.Valid()
    ensures p.ndims != 3 ==> r == Err(SizeMismatch)
    ensures p.ndims == 3 ==> r == Ok(Point3D(p.X() + yx * p.Y() + zx * p.Z(),
                                             xy * p.X() + p.Y() + zy * p.Z(),
                                             xz * p.X() + yz * p.Y() + p.Z()))
  {
    var t := ShearingMatrix(xy, xz, yx, yz, zx, zy);
    if p.ndims != 3 then ApplyMatrix(t, p)
    else
      ApplyImage(t, p);
      assert RowImage(t, 0, p) == p.X() + yx * p.Y() + zx * p.Z() &&
        RowImage(t, 1, p) == xy * p.X() + p.Y() + zy * p.Z() &&
        RowImage(t, 2, p) == xz * p.X() + yz * p.Y() + p.Z();
      ApplyMatrix(t, p)
  }

  /** `translate(pt, dx, dy, dz)` */
  ghost function TranslatePoint(p: Point, dx: real, dy: real, dz: real): (r: Result<Point>)
    requires p.Valid()
    ensures p.ndims != 3 ==> r == Err(SizeMismatch)
    ensures p.ndims == 3 ==> r == Ok(Point3D(p.X() + dx, p.Y() + dy, p.Z() + dz))
  {
    var t := TranslationMatrix(dx, dy, dz);
    if p.ndims != 3 then ApplyMatrix(t, p)
    else
      ApplyImage(t, p);
      assert RowImage(t, 0, p) == p.X() + dx && RowImage(t, 1, p) == p.Y() + dy &&
        RowImage(t, 2, p) == p.Z() + dz;
      ApplyMatrix(t, p)
  }

  /** `reflect(pt, plane)` */
  ghost function ReflectPoint(p: Point, plane: ReflectionLine3D): (r: Result<Point>)
    requires p.Valid()
    ensures p.ndims != 3 ==> r == Err(SizeMismatch)
    ensures p.ndims == 3 && plane == PlaneXY ==> r == Ok(Point3D(p.X(), p.Y(), -p.Z()))
    ensures p.ndims == 3 && plane == PlaneYZ ==> r == Ok(Point3D(-p.X(), p.Y(), p.Z()))
    ensures p.ndims == 3 && plane == PlaneZX ==> r == Ok(Point3D(p.X(), -p.Y(), p.Z()))
    ensures p.ndims == 3 && plane == Origin ==> r == Ok(Point3D(-p.X(), -p.Y(), -p.Z()))
  {
    var t := ReflectionMatrix(plane);
    if p.ndims != 3 then ApplyMatrix(t, p)
    else
      ReflectionImage(p, plane);
      ApplyMatrix(t, p)
  }

  /** The image of a point in space under each reflection matrix. */
  lemma ReflectionImage(p: Point, plane: ReflectionLine3D)
    requires p.Valid() && p.ndims == 3
    ensures plane == PlaneXY ==> ApplyMatrix(ReflectionMatrix(plane), p) == Ok(Point3D(p.X(), p.Y(), -p.Z()))
    ensures plane == PlaneYZ ==> ApplyMatrix(ReflectionMatrix(plane), p) == Ok(Point3D(-p.X(), p.Y(), p.Z()))
    ensures plane == PlaneZX ==> ApplyMatrix(ReflectionMatrix(plane), p) == Ok(Point3D(p.X(), -p.Y(), p.Z()))
    ensures plane == Origin ==> ApplyMatrix(ReflectionMatrix(plane), p) == Ok(Point3D(-p.X(), -p.Y(), -p.Z()))
  {
    match plane
    case PlaneXY => ReflectionXYImage(p);
    case PlaneYZ => ReflectionYZImage(p);
    case PlaneZX => ReflectionZXImage(p);
    case Origin => ReflectionOriginImage(p);
  }

  lemma ReflectionXYImage(p: Point)
    requires p.Valid() && p.ndims == 3
    ensures ApplyMatrix(ReflectionMatrix(PlaneXY), p) == Ok(Point3D(p.X(), p.Y(), -p.Z()))
  {
    var t := ReflectionMatrix(PlaneXY);
    ApplyImage(t, p);
    assert RowImage(t, 0, p) == p.X() && RowImage(t, 1, p) == p.Y() && RowImage(t, 2, p) == -p.Z();
  }

  lemma ReflectionYZImage(p: Point)
    requires p.Valid() && p.ndims == 3
    ensures ApplyMatrix(ReflectionMatrix(PlaneYZ), p) == Ok(Point3D(-p.X(), p.Y(), p.Z()))
  {
    var t := ReflectionMatrix(PlaneYZ);
    ApplyImage(t, p);
    assert RowImage(t, 0, p) == -p.X() && RowImage(t, 1, p) == p.Y() && RowImage(t, 2, p) == p.Z();
  }

  lemma ReflectionZXImage(p: Point)
    requires p.Valid() && p.ndims == 3
    ensures ApplyMatrix(ReflectionMatrix(PlaneZX), p) == Ok(Point3D(p.X(), -p.Y(), p.Z()))
  {
    var t := ReflectionMatrix(PlaneZX);
    ApplyImage(t, p);
    assert RowImage(t, 0, p) == p.X() && RowImage(t, 1, p) == -p.Y() && RowImage(t, 2, p) == p.Z();
  }

  lemma ReflectionOriginImage(p: Point)
    requires p.Valid() && p.ndims == 3
    ensures ApplyMatrix(ReflectionMatrix(Origin), p) == Ok(Point3D(-p.X(), -p.Y(), -p.Z()))
  {
    var t := ReflectionMatrix(Origin);
    ApplyImage(t, p);
    assert RowImage(t, 0, p) == -p.X() && RowImage(t, 1, p) == -p.Y() && RowImage(t, 2, p) == -p.Z();
  }

  // ---------------------------------------------------------------------------
  // 4 x 4 products written out

  lemma Sigma4(f: int -> real)
    ensures Sigma(0, 4, f) == f(0) + f(1) + f(2) + f(3)
  {
    assert Sigma(3, 4, f) == f(3);
  }

  /** A cell of a product whose inner dimension is 4. */
  lemma Product4At(a: Mat, b: Mat, i: int, j: int)
    requires a.Valid() && b.Valid() && a.cols == 4 && b.rows == 4
    requires 0 <= i < a.rows && 0 <= j < b.cols
    ensures Product(a, b).At(i, j) ==
      a.At(i, 0) * b.At(0, j) + a.At(i, 1) * b.At(1, j) + a.At(i, 2) * b.At(2, j) + a.At(i, 3) * b.At(3, j)
  {
    ProductAt(a, b, i, j);
    Sigma4(Terms(a, b, i, j));
  }

  /** A 4 x 4 matrix is its sixteen cells. */
  lemma Cells4(m: Mat)
    requires m.Valid() && m.rows == 4 && m.cols == 4
    ensures m == Mat(4, 4, [m.At(0, 0), m.At(0, 1), m.At(0, 2), m.At(0, 3),
                            m.At(1, 0), m.At(1, 1), m.At(1, 2), m.At(1, 3),
                            m.At(2, 0), m.At(2, 1), m.At(2, 2), m.At(2, 3),
                            m.At(3, 0), m.At(3, 1), m.At(3, 2), m.At(3, 3)])
  {
    assert m.data == [m.data[0], m.data[1], m.data[2], m.data[3], m.data[4], m.data[5],
                      m.data[6], m.data[7], m.data[8], m.data[9], m.data[10], m.data[11],
                      m.data[12], m.data[13], m.data[14], m.data[15]];
  }
}

/** Identities and inverses of the transforms in space, stated on the point helpers. */
module Transform3DTheorems {
  import opened Errors
  import opened Points
  import opened Transforms3D

  /** With every amount at its default 0, shearing is the identity. */
  lemma ShearDefaultsIdentity(p: Point)
    requires p.Valid() && p.ndims == 3
    ensures ShearingMatrix() == Identity4()
    ensures ShearPoint(p) == Ok(p)
  {
    assert p.vals == [p.X(), p.Y(), p.Z()];
  }

  /** A reflected point reflected again is the point. */
  lemma ReflectPointTwice(p: Point, plane: ReflectionLine3D)
    requires p.Valid() && p.ndims == 3
    ensures ReflectPoint(p, plane).Ok? && ReflectPoint(ReflectPoint(p, plane).value, plane) == Ok(p)
  {
    assert p.vals == [p.X(), p.Y(), p.Z()];
  }

  /** Translating by (-dx, -dy, -dz) undoes translating by (dx, dy, dz). */
  lemma TranslatePointBack(p: Point, dx: real, dy: real, dz: real)
    requires p.Valid() && p.ndims == 3
    ensures TranslatePoint(p, dx, dy, dz).Ok?
    ensures TranslatePoint(TranslatePoint(p, dx, dy, dz).value, -dx, -dy, -dz) == Ok(p)
  {
    assert p.vals == [p.X(), p.Y(), p.Z()];
  }

  /** Scaling by the reciprocals (kx, ky, kz) undoes scaling by (xscale, yscale, zscale). */
  lemma ScalePointBack(p: Point, xscale: real, yscale: real, zscale: real, kx: real, ky: real, kz: real)
    requires p.Valid() && p.ndims == 3
    requires xscale * kx == 1.0 && yscale * ky == 1.0 && zscale * kz == 1.0
    ensures ScalePoint(p, xscale, yscale, zscale).Ok?
    ensures ScalePoint(ScalePoint(p, xscale, yscale, zscale).value, kx, ky, kz) == Ok(p)
  {
    ScaleImage(p, xscale, yscale, zscale);
    var q := ScalePoint(p, xscale, yscale, zscale).value;
    Unscale(p.X(), q.X(), xscale, kx);
    Unscale(p.Y(), q.Y(), yscale, ky);
    Unscale(p.Z(), q.Z(), zscale, kz);
    ScaleImage(q, kx, ky, kz);
    SamePoint3D(q.X() * kx, q.Y() * ky, q.Z() * kz, p.X(), p.Y(), p.Z());
    Point3DComponents(p);
  }

  /** Solver hint, no claim of its own: `ScalePoint`'s ensures restated for one point, so
      the callers above get it without unfolding the function in their larger context. */
  lemma ScaleImage(p: Point, xscale: real, yscale: real, zscale: real)
    requires p.Valid() && p.ndims == 3
    ensures ScalePoint(p, xscale, yscale, zscale) == Ok(Point3D(p.X() * xscale, p.Y() * yscale, p.Z() * zscale))
  {
  }

  /** Point3D of equal coordinates. */
  lemma SamePoint3D(a: real, b: real, c: real, x: real, y: real, z: real)
    requires a == x && b == y && c == z
    ensures Point3D(a, b, c) == Point3D(x, y, z)
  {
  }

  /** A value scaled by k, then by the reciprocal of k, is the value again. */
  lemma Unscale(u: real, scaled: real, k: real, inverse: real)
    requires k * inverse == 1.0 && scaled == u * k
    ensures scaled * inverse == u
  {
    assert u * k * inverse == u * (k * inverse);
  }

  /** On the unit circle (c*c + s*s == 1), rotating by the opposite angle
      (cosine c, sine -s) about the same axis undoes a rotation. */
  lemma RotatePointBack(p: Point, axis: RotationAxis, c: real, s: real)
    requires p.Valid() && p.ndims == 3 && c * c + s * s == 1.0
    ensures RotatePoint(p, Some(axis), c, s).Ok?
    ensures RotatePoint(RotatePoint(p, Some(axis), c, s).value, Some(axis), c, -s) == Ok(p)
  {
    match axis
    case AxisX => TurnBackX(p, c, s);
    case AxisY => TurnBackY(p, c, s);
    case AxisZ => TurnBackZ(p, c, s);
  }

  /** `RotatePointBack` for each axis. */
  lemma TurnBackX(p: Point, c: real, s: real)
    requires p.Valid() && p.ndims == 3 && c * c + s * s == 1.0
    ensures RotatePoint(p, Some(AxisX), c, s).Ok?
    ensures RotatePoint(RotatePoint(p, Some(AxisX), c, s).value, Some(AxisX), c, -s) == Ok(p)
  {
    var t := -s;
    TurnXImage(p, c, s);
    var q := RotatePoint(p, Some(AxisX), c, s).value;
    TurnXImage(q, c, t);
    UnitTurn(c, s, t, p.Y(), p.Z(), q.Y(), q.Z());
    SamePoint3D(q.X(), c * q.Y() - t * q.Z(), t * q.Y() + c * q.Z(), p.X(), p.Y(), p.Z());
    Point3DComponents(p);
  }

  lemma TurnBackY(p: Point, c: real, s: real)
    requires p.Valid() && p.ndims == 3 && c * c + s * s == 1.0
    ensures RotatePoint(p, Some(AxisY), c, s).Ok?
    ensures RotatePoint(RotatePoint(p, Some(AxisY), c, s).value, Some(AxisY), c, -s) == Ok(p)
  {
    var t := -s;
    TurnYImage(p, c, s);
    var q := RotatePoint(p, Some(AxisY), c, s).value;
    TurnYImage(q, c, t);
    UnitTurn(c, s, t, p.Z(), p.X(), q.Z(), q.X());
    SamePoint3D(c * q.X() + t * q.Z(), q.Y(), c * q.Z() - t * q.X(), p.X(), p.Y(), p.Z());
    Point3DComponents(p);
  }

  lemma TurnBackZ(p: Point, c: real, s: real)
    requires p.Valid() && p.ndims == 3 && c * c + s * s == 1.0
    ensures RotatePoint(p, Some(AxisZ), c, s).Ok?
    ensures RotatePoint(RotatePoint(p, Some(AxisZ), c, s).value, Some(AxisZ), c, -s) == Ok(p)
  {
    var t := -s;
    TurnZImage(p, c, s);
    var q := RotatePoint(p, Some(AxisZ), c, s).value;
    TurnZImage(q, c, t);
    UnitTurn(c, s, t, p.X(), p.Y(), q.X(), q.Y());
    SamePoint3D(c * q.X() - t * q.Y(), t * q.X() + c * q.Y(), q.Z(), p.X(), p.Y(), p.Z());
    Point3DComponents(p);
  }

  /** Solver hints, no claims of their own: `RotatePoint`'s ensures for each axis restated
      for one point, so the callers above get them without unfolding the function. */
  lemma TurnXImage(p: Point, c: real, s: real)
    requires p.Valid() && p.ndims == 3
    ensures RotatePoint(p, Some(AxisX), c, s) == Ok(Point3D(p.X(), c * p.Y() - s * p.Z(), s * p.Y() + c * p.Z()))
  {
  }

  lemma TurnYImage(p: Point, c: real, s: real)
    requires p.Valid() && p.ndims == 3
    ensures RotatePoint(p, Some(AxisY), c, s) == Ok(Point3D(c * p.X() + s * p.Z(), p.Y(), c * p.Z() - s * p.X()))
  {
  }

  lemma TurnZImage(p: Point, c: real, s: real)
    requires p.Valid() && p.ndims == 3
    ensures RotatePoint(p, Some(AxisZ), c, s) == Ok(Point3D(c * p.X() - s * p.Y(), s * p.X() + c * p.Y(), p.Z()))
  {
  }

  /** Turning (u, v) by the angle (c, s) gives (u2, v2); turning (u2, v2) by the
      opposite angle (c, t) with t == -s gives back (u, v). */
  lemma UnitTurn(c: real, s: real, t: real, u: real, v: real, u2: real, v2: real)
    requires c * c + s * s == 1.0 && t == -s
    requires u2 == c * u - s * v && v2 == s * u + c * v
    ensures c * u2 - t * v2 == u
    ensures t * u2 + c * v2 == v
  {
    assert c * u2 - t * v2 == (c * c + s * s) * u;
    assert t * u2 + c * v2 == (c * c + s * s) * v;
  }
}
