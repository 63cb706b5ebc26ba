# Pythonista3D core, modelled in Dafny

Pythonista3D is a small Python toolkit for 3D graphics. This project models its core:

- **The matrix engine** (`Matrix` in pythonista3d/matrix.py). A dense row-major matrix over a
  flat list, with:
  - bounds-checked cell, row and column access;
  - element-wise arithmetic, the product (`dot`) and `transpose`;
  - minors, a recursive cofactor determinant and the adjugate inverse;
  - the identity and padded-column factories and the operator overloads.
- **The older copy of that class** in libs/matrix.py, with its own `set`.
- **The affine transforms** of the plane and of space (pythonista3d/transform2d.py and
  pythonista3d/transform3d.py):
  - the literal 3 x 3 and 4 x 4 homogeneous matrices;
  - the point helpers, which pad a point with a 1, multiply, and truncate;
  - the chaining `Transform2DBuilder`.
- **Points** (pythonista3d/points.py): checked construction, checked indexing and the x/y/z
  accessors.
- **The ASCII STL reader** (pythonista3d/fileformats/stl_file.py). It is a line-by-line state
  machine over a mode, a current facet and a list of facets.

Conventions:

- Cell values are `real`, so arithmetic is exact.
- Cosine and sine enter as plain parameters `c` and `s`.
- Python exceptions are one `Error` datatype (errors.dfy). Fallible operations return `Result`
  or `Outcome`.

The files:

- **matrix_spec.dfy** (`MatrixSpec`) is the value-level definition of every matrix operation:
  `Mat(rows, cols, data)` and one function per operation.
- **matrix.dfy** (`Matrices`) is the `Matrix` class. It holds an `array<real>`, because `set`
  writes in place and `set_all` adopts the caller's list. Every method is proved against the
  MatrixSpec function it implements.
- **matrix_theorems.dfy** proves what the operations guarantee together: inverses, identities,
  associativity, the determinant of the identity, the rule of Sarrus for every 3 x 3
  determinant, and the inverse law for 2 x 2 and 3 x 3 matrices.
- **libs_matrix.dfy** is the older class.
- **transform2d.dfy** and **transform3d.dfy** hold the factories, the point helpers and their
  inverse lemmas.
- **points.dfy** holds the points.
- **py_strings.dfy** holds the Python string built-ins the STL reader relies on.
- **stl_file.dfy** holds the reader:
  - `Step`/`Run` are the value-level specification of `_process` and of `load`'s loop;
  - the classes `STLFacet` and `STLFile` are proved against them.

## Model

| member | source | states |
|---|---|---|
| Points.Point.GetItem | pythonista3d/points.py:20-25 | a non-int key fails with TypeError; an int key outside [0, ndims) fails with ValueError; otherwise the result is component `key` |
| Points.Point.SetItem | pythonista3d/points.py:27-34 | it checks the key type, then the key range, then the value type, in that order; when all pass, the write into the stored tuple fails, so the setter never succeeds |
| Points.Point.X | pythonista3d/points.py:54-56 | the `x` getter is `p[0]` |
| Points.Point.Y | pythonista3d/points.py:62-64 | the `y` getter is `p[1]` |
| Points.Point.Z | pythonista3d/points.py:97-99 | the `z` getter is `p[2]` |
| Points.Point.SetX | pythonista3d/points.py:58-60 | the `x` setter is `p[0] = value`, and it always fails |
| Points.Point.SetY | pythonista3d/points.py:66-68 | the `y` setter is `p[1] = value`, and it always fails |
| Points.Point.SetZ | pythonista3d/points.py:101-103 | the `z` setter is `p[2] = value`, and it always fails |
| Points.NewPoint | pythonista3d/points.py:6-18 | construction fails with ValueError unless exactly ndims values are given; `len` and `num_dimensions` are then ndims, and `p[i]` reads value i back |
| Points.Point2D | pythonista3d/points.py:45-52 | a 2-dimensional point whose x and y read back the arguments |
| Points.Point3D | pythonista3d/points.py:71-79 | a 3-dimensional point whose x, y and z read back the arguments |
| Points.Point3DOf | pythonista3d/points.py:71-79 | `Point3D(*vals)` for up to three values: the given values first, then the missing components at their default 0 |
| Points.DefaultPointsAreOrigin | pythonista3d/points.py:46-79 | with every argument at its default, both point kinds are the origin |
| Points.Point2DComponents | pythonista3d/points.py:45-68 | a plane point is rebuilt exactly from its x and y |
| Points.Point3DComponents | pythonista3d/points.py:71-103 | a point in space is rebuilt exactly from its x, y and z |
| MatrixSpec.With | pythonista3d/matrix.py:170-184 | a write to cell (i, j) gives that cell the new value and keeps every other cell and the shape |
| MatrixSpec.Row | pythonista3d/matrix.py:139-147 | row i has ncols cells, and cell j is the matrix cell (i, j) |
| MatrixSpec.Col | pythonista3d/matrix.py:149-157 | the strided slice data[j::ncols] has nrows cells, and cell i is the matrix cell (i, j) |
| MatrixSpec.StrideColumn | pythonista3d/matrix.py:157 | the strided slice that starts in row i0 walks down column j to the last row |
| MatrixSpec.Ext | pythonista3d/matrix.py:20 | two row-major matrices of one shape that agree on every cell are equal |
| MatrixSpec.Sum | pythonista3d/matrix.py:53-61 | `add` is cell-by-cell: each cell of the result is the sum of the two matching cells |
| MatrixSpec.Difference | pythonista3d/matrix.py:63-71 | `subtract` is cell-by-cell: each cell of the result is the difference of the two matching cells |
| MatrixSpec.AddConst | pythonista3d/matrix.py:73-78 | `add_const` adds the constant to every cell |
| MatrixSpec.Scale | pythonista3d/matrix.py:100-105 | `scale` multiplies every cell by the scalar |
| MatrixSpec.Quotient | pythonista3d/matrix.py:80-88 | `divide` divides every cell by the constant |
| MatrixSpec.FloorQuotient | pythonista3d/matrix.py:90-98 | `int_divide` is Python's floor division of every cell by the constant |
| MatrixSpec.Product | pythonista3d/matrix.py:113-127 | the product is nrows x other.ncols, and cell (i, j) is the sum over k of self[i, k] * other[k, j] |
| MatrixSpec.Transpose | pythonista3d/matrix.py:129-137 | the transpose swaps the dimensions, and cell (j, i) of the result is cell (i, j) of the matrix |
| MatrixSpec.SubMatrix | pythonista3d/matrix.py:196-217 | removing row r and column c gives an (nrows-1) x (ncols-1) matrix whose cells are the remaining cells in their original order |
| MatrixSpec.KeptCellsCells | pythonista3d/matrix.py:207-216 | the list the nested loop appends has (nrows-1)(ncols-1) cells laid out row-major in the minor's shape |
| MatrixSpec.Determinant | pythonista3d/matrix.py:219-241 | a non-square matrix fails with SizeMismatch (the corrected reading; see Findings); a 0 x 0 matrix fails with IndexOutOfBounds through `get_row(0)`; otherwise the result is the cofactor expansion |
| MatrixSpec.Cofactors | pythonista3d/matrix.py:39-44 | cell (i, j) is the determinant of minor (i, j) times (-1)^(i+j) |
| MatrixSpec.Inverse | pythonista3d/matrix.py:30-51 | the failures come in the order the code meets them: SizeMismatch for a non-square matrix (the corrected reading; see Findings), IndexOutOfBounds for size at most 1 (the 0 x 0 minor), NoInverse exactly when the determinant is 0; otherwise the result has the matrix's shape |
| MatrixSpec.DeterminantAsWritten | pythonista3d/matrix.py:225-226 | as written, every non-square matrix raises TypeError (one `%s` given the two-value dimensions tuple); square matrices behave as `Determinant` |
| MatrixSpec.InverseAsWritten | pythonista3d/matrix.py:37-47 | as written, every non-square matrix raises that TypeError from the first determinant it takes; square matrices behave as `Inverse` |
| MatrixSpec.NonSquareAsWritten | pythonista3d/matrix.py:219-241 | for every non-square matrix the code as written raises TypeError in both operations where the corrected reading gives SizeMismatch; on square matrices the two agree |
| MatrixSpec.NonSquareExample | pythonista3d/matrix.py:225-226 | the 2 x 3 zero matrix: TypeError as written, SizeMismatch corrected |
| MatrixSpec.IdentityMatrix | pythonista3d/matrix.py:348-350 | size 0 fails the size check; otherwise the result is size x size with 1 on the diagonal and 0 elsewhere |
| MatrixSpec.IdentityDataCells | pythonista3d/matrix.py:350 | the list `[1] + ([0]*size + [1])*(size-1)` has size^2 cells (for size >= 1) and holds 1 exactly on the diagonal |
| MatrixSpec.Fill | pythonista3d/matrix.py:20 | `[v] * n` has n cells, all v |
| MatrixSpec.PaddedColumn | pythonista3d/matrix.py:335-346 | the padded column has ndims + pad_size rows and one column: the point's components, then pad_size copies of pad_value |
| MatrixSpec.PaddedColumnAsWritten | pythonista3d/matrix.py:346 | as written, the helper asks the point for `as_list`, which no point defines, so it always fails with AttributeError |
| Matrices.Matrix.constructor | pythonista3d/matrix.py:9-20 | a fresh nrows x ncols matrix with every cell set to init_val |
| Matrices.Matrix.Create | pythonista3d/matrix.py:9-28 | construction with a data list fails with SizeMismatch unless the list has nrows * ncols cells; otherwise the matrix holds that very list |
| Matrices.Matrix.SetAll | pythonista3d/matrix.py:186-194 | SizeMismatch unless the length fits the shape; otherwise the object keeps the caller's list itself, not a copy |
| Matrices.Matrix.Get | pythonista3d/matrix.py:159-168 | IndexOutOfBounds outside [0, nrows) x [0, ncols); otherwise the row-major cell (i, j) |
| Matrices.Matrix.Set | pythonista3d/matrix.py:170-184 | IndexOutOfBounds outside the matrix, and then nothing changes; otherwise the new value is `With(old value, i, j, v)` |
| Matrices.Matrix.GetRow | pythonista3d/matrix.py:139-147 | IndexOutOfBounds outside [0, nrows); otherwise the result is `Row(value, i)` |
| Matrices.Matrix.GetCol | pythonista3d/matrix.py:149-157 | IndexOutOfBounds outside [0, ncols); otherwise the strided walk yields `Col(value, j)` |
| Matrices.Matrix.AsList | pythonista3d/matrix.py:264-268 | a copy of the flat list, holding the matrix value |
| Matrices.Matrix.As2DList | pythonista3d/matrix.py:258-262 | nrows lists, where list i is row i |
| Matrices.Matrix.Clone | pythonista3d/matrix.py:270-271 | a fresh matrix over a fresh list with the same shape and cells |
| Matrices.Matrix.Add | pythonista3d/matrix.py:53-61 | SizeMismatch iff the dimensions differ; otherwise a fresh matrix holding `Sum` |
| Matrices.Matrix.Subtract | pythonista3d/matrix.py:63-71 | SizeMismatch iff the dimensions differ; otherwise a fresh matrix holding `Difference` |
| Matrices.Matrix.AddConst | pythonista3d/matrix.py:73-78 | a fresh matrix holding `AddConst` |
| Matrices.Matrix.Divide | pythonista3d/matrix.py:80-88 | DivideByZero iff the constant is 0; otherwise a fresh matrix holding `Quotient` |
| Matrices.Matrix.IntDivide | pythonista3d/matrix.py:90-98 | DivideByZero iff the constant is 0; otherwise a fresh matrix holding `FloorQuotient` |
| Matrices.Matrix.Scale | pythonista3d/matrix.py:100-105 | a fresh matrix holding `Scale` |
| Matrices.Matrix.Negative | pythonista3d/matrix.py:107-111 | the same matrix value as `scale(-1)` |
| Matrices.Matrix.Dot | pythonista3d/matrix.py:113-127 | SizeMismatch iff self.ncols != other.nrows; otherwise a fresh matrix holding `Product` |
| Matrices.Matrix.DotRow | pythonista3d/matrix.py:122-126 | one pass of the inner loop sets every cell of one row to the sum of products of that row and each column |
| Matrices.Matrix.Transpose | pythonista3d/matrix.py:129-137 | a fresh matrix holding `Transpose` |
| Matrices.Matrix.GetSubMatrix | pythonista3d/matrix.py:196-217 | IndexOutOfBounds outside the matrix; otherwise a fresh matrix holding `SubMatrix` |
| Matrices.Matrix.GetDeterminant | pythonista3d/matrix.py:219-241 | the result is exactly `Determinant(value)`, including both failures; SizeMismatch for a non-square matrix is the corrected reading (see Findings) |
| Matrices.Matrix.ExpandAlongRow | pythonista3d/matrix.py:236-241 | the loop's alternating-sign total is the full cofactor expansion along row 0 |
| Matrices.Matrix.Inverse | pythonista3d/matrix.py:30-51 | the result is exactly `Inverse(value)`: each failure in the code's order (SizeMismatch for a non-square matrix being the corrected reading; see Findings), or a fresh matrix holding the scaled adjugate |
| Matrices.Matrix.SignedMinors | pythonista3d/matrix.py:37-44 | the nested loop fills a fresh matrix with `Cofactors(value)`, or stops at the first minor whose determinant fails (SizeMismatch for a non-square matrix, the corrected reading) |
| Matrices.Matrix.SignedMinorsRow | pythonista3d/matrix.py:40-44 | one row of the loop writes the signed minors of that row and keeps the rows before it |
| Matrices.Matrix.SignedMinor | pythonista3d/matrix.py:41-43 | the determinant of minor (row, col) times (-1)^(row+col), or that determinant's failure (the corrected one) |
| Matrices.Matrix.IdentityMatrix | pythonista3d/matrix.py:348-350 | SizeMismatch for size 0; otherwise a fresh matrix holding the identity |
| Matrices.Matrix.FromPoint | pythonista3d/matrix.py:326-333 | an ndims x 1 column holding the point's components (the corrected reading; see Findings) |
| MatrixSpec.FromPointAsWrittenFails | pythonista3d/matrix.py:333 | as written, `from_point` asks the point for `as_list` and fails with AttributeError for every point; the corrected column is exactly the point's components |
| Matrices.Matrix.FromPointWithPadding | pythonista3d/matrix.py:335-346 | a fresh matrix holding `PaddedColumn` (the corrected reading; see Findings) |
| Matrices.Matrix.Plus | pythonista3d/matrix.py:273-282 | `add` for a matrix, `add_const` for a number, and TypeError for any other operand |
| Matrices.Matrix.Minus | pythonista3d/matrix.py:284-290 | `subtract` for a matrix, `add_const(-1 * x)` for a number, and TypeError for any other operand |
| Matrices.Matrix.Times | pythonista3d/matrix.py:292-301 | `dot` for a matrix, `scale` for a number, and TypeError for any other operand |
| Matrices.Matrix.FloorDiv | pythonista3d/matrix.py:303-307 | `int_divide` for a number, and TypeError for any other operand |
| Matrices.Matrix.TrueDiv | pythonista3d/matrix.py:309-313 | `divide` for a number, and TypeError for any other operand |
| MatrixTheorems.SumThenDifference | pythonista3d/matrix.py:53-71 | `subtract` undoes `add` |
| MatrixTheorems.SumCommutes | pythonista3d/matrix.py:53-61 | `add` is commutative |
| MatrixTheorems.AddConstInverse | pythonista3d/matrix.py:73-78 | `add_const(-c)` undoes `add_const(c)` |
| MatrixTheorems.ScaleInverse | pythonista3d/matrix.py:100-105 | for c != 0, `scale(1/c)` undoes `scale(c)` |
| MatrixTheorems.QuotientIsScale | pythonista3d/matrix.py:80-105 | `divide(c)` equals `scale(1/c)` |
| MatrixTheorems.NegativeCancels | pythonista3d/matrix.py:107-111 | m + negative(m) is the zero matrix |
| MatrixTheorems.TransposeTwice | pythonista3d/matrix.py:129-137 | transposing twice gives back the matrix |
| MatrixTheorems.ColIsTransposedRow | pythonista3d/matrix.py:139-157 | `get_col(j)` is row j of the transpose |
| MatrixTheorems.TransposeProduct | pythonista3d/matrix.py:113-137 | (a b)^T = b^T a^T |
| MatrixTheorems.ProductAt | pythonista3d/matrix.py:126 | a product cell is the sum of the products of the zipped row and column |
| MatrixTheorems.ProductIdentityRight | pythonista3d/matrix.py:113-127 | `m.dot(identity_matrix(m.ncols))` is m |
| MatrixTheorems.ProductIdentityLeft | pythonista3d/matrix.py:113-127 | `identity_matrix(m.nrows).dot(m)` is m |
| MatrixTheorems.ProductAssociative | pythonista3d/matrix.py:113-127 | the product is associative |
| MatrixTheorems.SigmaSwap | pythonista3d/matrix.py:126 | a double sum of cells may be taken in either order |
| MatrixTheorems.Det2 | pythonista3d/matrix.py:231-233 | a 2 x 2 determinant is a*d - b*c |
| MatrixTheorems.DetIdentity | pythonista3d/matrix.py:219-241 | the determinant of every identity matrix is 1 |
| MatrixTheorems.IdentityExpansion | pythonista3d/matrix.py:236-241 | along row 0 of the identity only the first term of the expansion survives |
| MatrixTheorems.DetSarrus | pythonista3d/matrix.py:219-241 | for every 3 x 3 matrix the recursive expansion along row 0 equals the rule of Sarrus |
| MatrixTheorems.Cofactors3 | pythonista3d/matrix.py:37-51 | every cofactor of a 3 x 3 matrix is the signed 2 x 2 minor of the other rows and columns |
| MatrixTheorems.InverseCell3 | pythonista3d/matrix.py:37-51 | cell (i, j) of the inverse of a 3 x 3 matrix is the signed minor (j, i) divided by the determinant |
| MatrixTheorems.InverseAt | pythonista3d/matrix.py:37-51 | cell (i, j) of the inverse is cofactor (j, i) divided by the determinant |
| MatrixTheorems.Inverse2x2 | pythonista3d/matrix.py:30-51 | a 2 x 2 matrix with non-zero determinant has an inverse, and multiplying by it on either side gives the identity |
| MatrixTheorems.AdjugateRight3 | pythonista3d/matrix.py:37-51 | a 3 x 3 matrix times its transposed cofactors scaled by 1 / det is the identity |
| MatrixTheorems.AdjugateLeft3 | pythonista3d/matrix.py:37-51 | the transposed cofactors scaled by 1 / det times the 3 x 3 matrix is the identity |
| MatrixTheorems.Inverse3x3 | pythonista3d/matrix.py:30-51 | a 3 x 3 matrix with non-zero determinant (computed by the recursive expansion) has an inverse, and multiplying by it on either side gives the identity |
| Transforms2D.Identity3 | pythonista3d/transform2d.py:159 | the builder's start `identity_matrix(3)` is the 3 x 3 identity, with last row [0, 0, 1] |
| Transforms2D.RotationMatrix | pythonista3d/transform2d.py:27-34 | the rotation matrix is 3 x 3 with last row [0, 0, 1] |
| Transforms2D.ScalingMatrix | pythonista3d/transform2d.py:49-57 | the scaling matrix is 3 x 3 with last row [0, 0, 1] |
| Transforms2D.ShearingMatrix | pythonista3d/transform2d.py:73-81 | the shearing matrix is 3 x 3 with last row [0, 0, 1] |
| Transforms2D.TranslationMatrix | pythonista3d/transform2d.py:97-105 | the translation matrix is 3 x 3 with last row [0, 0, 1] |
| Transforms2D.ReflectionMatrix | pythonista3d/transform2d.py:121-138 | every entry of the reflection table is 3 x 3 with last row [0, 0, 1] |
| Transforms2D.ApplyMatrix | pythonista3d/transform2d.py:44-46 | pad, multiply and keep two cells: a point that is not 2-dimensional fails with SizeMismatch at the product |
| Transforms2D.ApplyImage | pythonista3d/transform2d.py:44-46 | for a plane point the result is its affine image (t00 x + t01 y + t02, t10 x + t11 y + t12) |
| Transforms2D.RotatePoint | pythonista3d/transform2d.py:37-46 | rotate yields (c x - s y, s x + c y) (the corrected reading; see Findings) |
| Transforms2D.ScalePoint | pythonista3d/transform2d.py:60-70 | scale yields (x sx, y sy) (the corrected reading; see Findings) |
| Transforms2D.ShearPoint | pythonista3d/transform2d.py:84-94 | shear yields (x + h y, v x + y) (the corrected reading; see Findings) |
| Transforms2D.TranslatePoint | pythonista3d/transform2d.py:108-118 | translate yields (x + dx, y + dy) (the corrected reading; see Findings) |
| Transforms2D.ReflectPoint | pythonista3d/transform2d.py:141-150 | reflection over x gives (x, -y), over y gives (-x, y), over the origin gives (-x, -y), and over xy gives (y, x) (the corrected reading; see Findings) |
| Transforms2D.ReflectionImage | pythonista3d/transform2d.py:121-150 | the image of a plane point under each entry of the reflection table |
| Transforms2D.ApplyIdentity | pythonista3d/transform2d.py:154-159 | applying the identity leaves every plane point unchanged |
| Transforms2D.AffineProduct | pythonista3d/transform2d.py:161-207 | a product of matrices with last row [0, 0, 1] keeps that last row |
| Transforms2D.ApplyProduct | pythonista3d/transform2d.py:161-221 | applying s * m is applying m, then s, so a chained builder applies its steps in the order they were added |
| Transforms2D.PaddedImage | pythonista3d/transform2d.py:215-221 | an affine matrix times a padded plane point is the padded image of the point |
| Transforms2D.ApplyAsWritten | pythonista3d/transform2d.py:44 | as written, every point helper fails with AttributeError in `from_point_with_padding` |
| Transforms2D.ApplyAsWrittenFails | pythonista3d/transform2d.py:108-118 | translating the origin by (1, 2) fails as written, and the corrected helper gives (1, 2) |
| Transforms2D.Transform2DBuilder.constructor | pythonista3d/transform2d.py:154-159 | a new builder holds a fresh 3 x 3 identity |
| Transforms2D.Transform2DBuilder.Push | pythonista3d/transform2d.py:161-207 | one chained step: the builder's matrix becomes step * old matrix, and the invariant holds |
| Transforms2D.Transform2DBuilder.Rotate | pythonista3d/transform2d.py:161-168 | the matrix becomes rotation * old, and the same builder is returned |
| Transforms2D.Transform2DBuilder.Scale | pythonista3d/transform2d.py:170-178 | the matrix becomes scaling * old, and the same builder is returned |
| Transforms2D.Transform2DBuilder.Shear | pythonista3d/transform2d.py:180-188 | the matrix becomes shearing * old, and the same builder is returned |
| Transforms2D.Transform2DBuilder.Translate | pythonista3d/transform2d.py:190-198 | the matrix becomes translation * old, and the same builder is returned |
| Transforms2D.Transform2DBuilder.Reflect | pythonista3d/transform2d.py:200-207 | the matrix becomes reflection * old, and the same builder is returned |
| Transforms2D.Transform2DBuilder.Build | pythonista3d/transform2d.py:209-213 | a fresh copy of the matrix, so later chaining does not alter it |
| Transforms2D.Transform2DBuilder.Apply | pythonista3d/transform2d.py:215-221 | the result is `ApplyMatrix` of the builder's matrix |
| Transform2DTheorems.AffineCompose | pythonista3d/transform2d.py:161-207 | the product of two affine matrices is the affine matrix of the composed map |
| Transform2DTheorems.ReflectionSelfInverse | pythonista3d/transform2d.py:121-138 | each reflection matrix times itself is the identity |
| Transform2DTheorems.TranslationInverse | pythonista3d/transform2d.py:97-105 | translating by (-dx, -dy) undoes translating by (dx, dy) |
| Transform2DTheorems.ScalingInverse | pythonista3d/transform2d.py:49-57 | scaling by the reciprocals undoes scaling |
| Transform2DTheorems.RotationInverse | pythonista3d/transform2d.py:27-34 | with c^2 + s^2 = 1, rotating by -rads undoes rotating by rads |
| Transform2DTheorems.ReflectPointTwice | pythonista3d/transform2d.py:141-150 | a point reflected twice over the same line is the point |
| Transform2DTheorems.TranslatePointBack | pythonista3d/transform2d.py:108-118 | a translated point translated back is the point |
| Transforms3D.Identity4 | pythonista3d/matrix.py:348-350 | `identity_matrix(4)` is the 4 x 4 identity, with last row [0, 0, 0, 1] |
| Transforms3D.RotationMatrix | pythonista3d/transform3d.py:39-61 | an axis gives a 4 x 4 matrix with last row [0, 0, 0, 1]; an argument that is not an axis gives None |
| Transforms3D.ScalingMatrix | pythonista3d/transform3d.py:77-87 | 4 x 4 with last row [0, 0, 0, 1] |
| Transforms3D.ShearingMatrix | pythonista3d/transform3d.py:104-119 | 4 x 4 with last row [0, 0, 0, 1] |
| Transforms3D.TranslationMatrix | pythonista3d/transform3d.py:141-151 | 4 x 4 with last row [0, 0, 0, 1] |
| Transforms3D.ReflectionMatrix | pythonista3d/transform3d.py:168-189 | every entry of the reflection table is 4 x 4 with last row [0, 0, 0, 1] |
| Transforms3D.ApplyMatrix | pythonista3d/transform3d.py:72-74 | pad with exactly one 1, multiply and keep three cells; a point that is not 3-dimensional fails with SizeMismatch |
| Transforms3D.ApplyImage | pythonista3d/transform3d.py:72-74 | for a point in space the result is the first three rows of t applied to (x, y, z, 1) |
| Transforms3D.RotatePoint | pythonista3d/transform3d.py:64-74 | an argument that is not an axis fails at the product; about x the result is (x, c y - s z, s y + c z); the other axes likewise, each keeping its own coordinate for any c and s (the corrected reading; see Findings) |
| Transforms3D.RotationImage | pythonista3d/transform3d.py:46-61 | the image of a point under each rotation matrix |
| Transforms3D.ScalePoint | pythonista3d/transform3d.py:90-101 | scale yields (x sx, y sy, z sz) (the corrected reading; see Findings) |
| Transforms3D.ShearPoint | pythonista3d/transform3d.py:122-138 | shear yields (x + yx y + zx z, xy x + y + zy z, xz x + yz y + z) (the corrected reading; see Findings) |
| Transforms3D.TranslatePoint | pythonista3d/transform3d.py:154-165 | translate yields (x + dx, y + dy, z + dz) (the corrected reading; see Findings) |
| Transforms3D.ReflectPoint | pythonista3d/transform3d.py:192-201 | reflection over xy negates z, over yz negates x, over zx negates y, and over the origin negates all three (the corrected reading; see Findings) |
| Transforms3D.ReflectionImage | pythonista3d/transform3d.py:168-189 | the image of a point under each reflection matrix |
| Transform3DTheorems.ShearDefaultsIdentity | pythonista3d/transform3d.py:104-138 | with every amount at its default 0, the shearing matrix is the identity and shear leaves every point in place |
| Transform3DTheorems.ReflectPointTwice | pythonista3d/transform3d.py:192-201 | a point reflected twice over the same plane is the point |
| Transform3DTheorems.TranslatePointBack | pythonista3d/transform3d.py:154-165 | translating back by (-dx, -dy, -dz) restores the point |
| Transform3DTheorems.ScalePointBack | pythonista3d/transform3d.py:90-101 | scaling by the reciprocals restores the point |
| Transform3DTheorems.RotatePointBack | pythonista3d/transform3d.py:64-74 | with c^2 + s^2 = 1, rotating about the same axis by the opposite angle restores the point |
| LegacyMatrices.SetCellAsWritten | libs/matrix.py:60-63 | `set` as written: IndexOutOfBounds outside [0, nrows] x [0, ncols], Python's IndexError past the end of the list, otherwise a write at i * ncols + j |
| LegacyMatrices.SetCellAsWrittenInRange | libs/matrix.py:60-63 | on a cell inside the matrix, the as-written `set` writes exactly that cell |
| LegacyMatrices.SetCellAsWrittenAccepts | libs/matrix.py:61 | the as-written check lets through every cell, plus column index ncols on every row but the last, and nothing else |
| LegacyMatrices.SetCellAsWrittenPastEnd | libs/matrix.py:61-63 | row index nrows, or column ncols on the last row, passes the check and then raises IndexError |
| LegacyMatrices.SetCellAsWrittenWraps | libs/matrix.py:61-63 | `set(i, ncols, v)` on any row but the last writes cell (i + 1, 0) |
| LegacyMatrices.SetCellAsWrittenExample | libs/matrix.py:60-63 | on [[1, 2], [3, 4]], `set(0, 2, 9)` yields [[1, 2], [9, 4]] |
| LegacyMatrices.Matrix.constructor | libs/matrix.py:7-10 | a fresh nrows x ncols matrix with every cell set to init_val |
| LegacyMatrices.Matrix.Create | libs/matrix.py:7-12 | construction with data fails with SizeMismatch unless the length fits; otherwise the matrix holds that very list |
| LegacyMatrices.Matrix.SetAll | libs/matrix.py:65-68 | SizeMismatch unless len == nrows * ncols; otherwise the object adopts the caller's list |
| LegacyMatrices.Matrix.Get | libs/matrix.py:55-58 | IndexOutOfBounds outside the matrix; otherwise the row-major cell |
| LegacyMatrices.Matrix.SetAsWritten | libs/matrix.py:60-63 | the in-place write does exactly what `SetCellAsWritten` says, and a failure changes nothing |
| LegacyMatrices.Matrix.Set | libs/matrix.py:60-63 | the intended `set` (corrected; see Findings): IndexOutOfBounds outside [0, nrows) x [0, ncols), otherwise only cell (i, j) changes |
| LegacyMatrices.Matrix.GetRow | libs/matrix.py:45-48 | IndexOutOfBounds outside [0, nrows); otherwise row i |
| LegacyMatrices.Matrix.GetCol | libs/matrix.py:50-53 | IndexOutOfBounds outside [0, ncols); otherwise column j |
| LegacyMatrices.Matrix.Add | libs/matrix.py:17-20 | SizeMismatch iff the dimensions differ; otherwise the cell-by-cell sum |
| LegacyMatrices.Matrix.Subtract | libs/matrix.py:22-25 | SizeMismatch iff the dimensions differ; otherwise the cell-by-cell difference |
| LegacyMatrices.Matrix.AddConst | libs/matrix.py:27-28 | the constant added to every cell |
| LegacyMatrices.Matrix.Scale | libs/matrix.py:30-31 | every cell multiplied by the scalar |
| LegacyMatrices.Matrix.Negative | libs/matrix.py:33-34 | the same matrix value as `scale(-1)` |
| LegacyMatrices.Matrix.Inverse | libs/matrix.py:14-15 | a stub: returns None |
| LegacyMatrices.Matrix.Dot | libs/matrix.py:36-37 | a stub: returns None |
| LegacyMatrices.Matrix.Cross | libs/matrix.py:39-40 | a stub: returns None |
| LegacyMatrices.Matrix.Transpose | libs/matrix.py:42-43 | a stub: returns None |
| LegacyMatrices.Matrix.Plus | libs/matrix.py:82-86 | `add` for a matrix, `add_const` for a number, and None for any other operand |
| LegacyMatrices.Matrix.Minus | libs/matrix.py:88-89 | always `subtract`, so a non-matrix operand fails with AttributeError at its dimensions |
| PyStrings.TrimStartSpec | pythonista3d/fileformats/stl_file.py:65 | what is cut from the front is a run of whitespace, and the rest is a suffix |
| PyStrings.TrimEndSpec | pythonista3d/fileformats/stl_file.py:65 | what is cut from the back is a run of whitespace, and the rest is a prefix |
| PyStrings.StripSpec | pythonista3d/fileformats/stl_file.py:65 | `strip()` is a slice of the line with only whitespace around it, and it neither starts nor ends with whitespace |
| PyStrings.StripIdempotent | pythonista3d/fileformats/stl_file.py:65 | stripping twice is stripping once |
| PyStrings.WordEndSpec | pythonista3d/fileformats/stl_file.py:28 | a word runs up to the first whitespace character |
| PyStrings.SplitSpec | pythonista3d/fileformats/stl_file.py:28 | `split()` yields non-empty whitespace-free words which, concatenated, are the line's non-whitespace characters in order |
| PyStrings.SplitAtSpace | pythonista3d/fileformats/stl_file.py:28 | every whitespace character is a word boundary: split(a + ws + b) is split(a) followed by split(b) |
| PyStrings.SplitWord | pythonista3d/fileformats/stl_file.py:28 | a non-empty string without whitespace splits into itself alone |
| PyStrings.SplitOfSpaces | pythonista3d/fileformats/stl_file.py:28 | a string of whitespace only has no words |
| PyStrings.NonSpaceAppend | pythonista3d/fileformats/stl_file.py:28 | the non-whitespace characters of a + b are those of a followed by those of b |
| PyStrings.LastThree | pythonista3d/fileformats/stl_file.py:28 | `[-3:]` is the suffix of the list of length three, or the whole list when it has fewer than three items |
| PyStrings.ParseNumbers | pythonista3d/fileformats/stl_file.py:28 | the conversion succeeds iff every token converts, giving the numbers in order; otherwise the result is float()'s ValueError |
| StlFiles.ReadTriple | pythonista3d/fileformats/stl_file.py:28 | ok iff every one of the last three words converts; the point is 3-dimensional, holds those numbers and has 0 for any missing component |
| StlFiles.Step | pythonista3d/fileformats/stl_file.py:82-96 | a line never changes the line number and never removes filed facets |
| StlFiles.StepSpec | pythonista3d/fileformats/stl_file.py:82-96 | line 1 only sets the mode (ascii iff it starts with "solid") and leaves the facets alone; later lines never change the mode; "endloop" files the current facet and clears it; nothing else changes the facet list; a line without a keyword changes nothing; a step fails exactly on a bad number or a vertex with no open facet |
| StlFiles.StepFacetLine | pythonista3d/fileformats/stl_file.py:90-91 | a "facet" line replaces the current facet with one whose normal is read from the line and whose vertex list is empty |
| StlFiles.StepVertexLine | pythonista3d/fileformats/stl_file.py:92-93 | a "vertex" line appends the point read from the line to the open facet |
| StlFiles.Run | pythonista3d/fileformats/stl_file.py:62-70 | when every line succeeds, the line counter advances once per line; filed facets are only ever extended |
| StlFiles.RunFirstLine | pythonista3d/fileformats/stl_file.py:64-70 | the loop strips the first line and processes it: a failure stops the run there, and otherwise the run goes on with the counter incremented |
| StlFiles.RunFilesOnePerEndloop | pythonista3d/fileformats/stl_file.py:94-96 | a successful run files exactly one facet per "endloop" line after line 1 |
| StlFiles.RunAppend | pythonista3d/fileformats/stl_file.py:64-70 | reading a + b is reading a, then b from where a stopped |
| StlFiles.EndloopFilesOpenFacet | pythonista3d/fileformats/stl_file.py:76-96 | the "endloop" line at position i appends the facet open just before it, right after the facets filed by then, so the facets come out in the order of their "endloop" lines |
| StlFiles.STLFacet.New | pythonista3d/fileformats/stl_file.py:22-29 | fails with ValueError iff the normal cannot be read; otherwise a fresh facet with that normal and no vertices |
| StlFiles.STLFacet.AddVertex | pythonista3d/fileformats/stl_file.py:31-36 | succeeds iff the point can be read, appending exactly that point; on failure the facet is unchanged |
| StlFiles.STLFile.constructor | pythonista3d/fileformats/stl_file.py:43-53 | a new reader at line 1 with the given mode, no current facet and no facets |
| StlFiles.STLFile.GetFacets | pythonista3d/fileformats/stl_file.py:76-80 | the reader's own facet list, whose contents are the facets of the specification state |
| StlFiles.STLFile.Process | pythonista3d/fileformats/stl_file.py:82-96 | `_process` moves the object's state exactly as `Step` says, or raises `Step`'s error and changes nothing |
| StlFiles.STLFile.Load | pythonista3d/fileformats/stl_file.py:55-74 | ascii mode with a missing file fails with "File not found"; ascii reads every line as `Run` says; binary raises "Not implemented yet"; any other mode raises "No mode specified" |
| StlFiles.STLFile.ReadLines | pythonista3d/fileformats/stl_file.py:62-70 | the read loop leaves the object in the state `Run` reaches, with its outcome |
| StlFiles.STLFile.ReadLine | pythonista3d/fileformats/stl_file.py:63-70 | one iteration of the loop: strip, process and count, as `Run` says of the first line |

## Left out

- Trigonometry and floating point: cell values are exact reals, and cos and sin of an angle are
  the parameters `c` and `s`. The rotation inverses assume c^2 + s^2 = 1. The approximate
  round trips in the test scripts are not modelled.
- `__repr__` of both matrix classes, and `STLFacet.__repr__` and `print_facets` of the STL
  reader, are string formatting and printing.
- File I/O in `STLFile.load`: the file's existence is the parameter `fileExists`, and its lines,
  as `readline` returns them before the end of the file, are the parameter `lines`.
- `float()` on a token is the parameter `toNum`. The model says nothing about which spellings
  `float()` accepts. Every failure is the same ValueError.
- STLMode reading: a mode argument that is not an `STLMode` is modelled as `None` in
  `Option<STLMode>`.
- `Vector3D`, the normal of an STL facet, is modelled as a 3-dimensional `Point`. Its class has
  the same constructor shape.
- Matrix dimensions are `nat`. A negative dimension in Python gives an empty list or an
  arithmetic oddity, which the model does not reproduce.
- Matrix operators take an `Operand` datatype for the Python operand (a matrix, a number or any
  other object), standing in for `isinstance`/`type` dispatch.
- `__radd__`/`__rmul__` are the same methods as `Plus`/`Times`. `__neg__` is `Negative`.
- The builder class at pythonista3d/transform3d.py:204-272 is a miscopied 2D builder that cannot
  run (wrong arities, a 3 x 3 start against 4 x 4 steps, an unimported `Point2D`). It is not
  modelled.
- A 3D builder with reverse build or apply, which the test scripts call, is not part of this
  model: no such class exists in the source.
- 3D inverses are stated on the point helpers (`Transform3DTheorems`). The equivalent 4 x 4
  matrix-product identities are not proved.
- `MatrixTheorems.Inverse3x3` proves the inverse law for 3 x 3 matrices, where the determinant and
  the cofactors go through the recursive expansion once. Sizes 4 and above are not proved: that
  needs a general Laplace expansion along any row or column, which this model does not state.
- Transform2DTheorems.ScalingInverse: takes the reciprocals as parameters `kx`, `ky` with
  `xscale * kx == 1`, rather than computing `1 / xscale`.
- Transform3DTheorems.ScalePointBack: takes the reciprocals as parameters `kx`, `ky`, `kz` in the
  same way.
- `set_all` aliasing is modelled (the object keeps the caller's array). The ways a caller could
  later write through that shared list are not explored.
- `deg2rad`/`rad2deg` in pythonista3d/transform3d.py are float helpers outside the transforms.

## Findings

| source | as written | input that shows it | evidently intended | confidence | as-written member | corrected member |
|---|---|---|---|---|---|---|
| pythonista3d/matrix.py:346 | `from_point_with_padding` calls `pt.as_list()`, which no point class defines, so every 2D and 3D point helper and `Transform2DBuilder.apply` raise AttributeError | `Transform2D.translate(Point2D(0, 0), 1, 2)` | the column of the point's components followed by the padding, so the translate gives (1, 2) | high, not executed | Transforms2D.ApplyAsWrittenFails | Transforms2D.ApplyImage |
| pythonista3d/matrix.py:333 | `from_point` builds its column from `pt.as_list()`, which no point class defines, so it raises AttributeError | `Matrix.from_point(Point2D(1, 2))` | the 2 x 1 column [1, 2] | high, not executed | MatrixSpec.FromPointAsWrittenFails | Matrices.Matrix.FromPoint |
| pythonista3d/matrix.py:226 | the non-square check of `get_determinant` formats its message with one `%s` and the two-value `dimensions` tuple, so `%` raises TypeError; `inverse` of a non-square matrix inherits it | `get_determinant()` or `inverse()` on any 2 x 3 matrix | MatrixSizeMismatchError, as the docstring promises | high, not executed | MatrixSpec.NonSquareAsWritten | MatrixSpec.Inverse |
| libs/matrix.py:61 | `set` checks `range(0, n + 1)` for both indices | `set(0, 2, 9)` on the 2 x 2 matrix [[1, 2], [3, 4]] succeeds and writes cell (1, 0) | IndexOutOfBounds outside [0, nrows) x [0, ncols), as `get` checks | high, not executed | LegacyMatrices.SetCellAsWrittenWraps | LegacyMatrices.Matrix.Set |
