# Alegria 2D math core in Dafny

This project models the numeric core of the Alegria 2D Java game framework. It covers:

- the 3x3 matrix class `com.alegria2d.core.math.Matrix3D` and its older copy `com.alegria2d.math.Matrix3D`;
- the mutable 2D vector `com.alegria2d.math.Vector2D`;
- the integer interval `com.alegria2d.core.math.IntRange`;
- the multiply-accumulate hash builder `com.alegria2d.math.HashBuilder`;
- the vector helpers of `com.alegria2d.math.MathUtil`;
- the LWJGL display-mode wrapper `OglDisplayMode`.

The project proves properties of these models.

Modules and files:

- `wrappers.dfy` (`Wrappers`): `Result` and `Option`. A Java exception becomes `Failure(IllegalArgument | IndexOutOfBounds | DivideByZero)`.
- `java_ints.dfy` (`JavaInts`): the Java integer types, and `Wrap32` for two's-complement `int` arithmetic.
- `matrices.dfy` (`Matrices`): the value `Mat3` (entries a b c / d e f / g h k). It holds the algebra both matrix classes are specified by: sum, product, scaling, transpose, determinant, adjugate and the true inverse.
- `matrix3d.dfy` (`CoreMatrix3D`): the class `Matrix3D` over a `3x3` `array2<real>`, with its in-place and copying operations, and the row view `MatrixRow`.
- `legacy_matrix3d.dfy` (`LegacyMatrix3D`): the older class. Its getters are named `a()` … `k()` instead of `getA()` … `getK()`, and it has no `equals`, `hashCode`, `similar` or `toString`. Otherwise it is the same, except that the getter `k()` reads outside the array.
- `vector2d.dfy` (`Vectors`): the value `Vec` and the class `Vector2D`.
- `int_range.dfy` (`IntRanges`): the value `IntRange`, which never changes after construction.
- `hash_builder.dfy` (`Hashing`): the fold `Step`/`Fold` and the class `HashBuilder`.
- `math_util.dfy` (`MathUtil`): `distanceSqr`, `reflect` and `truncate`.
- `display_mode.dfy` (`OglDisplayModes`): the value `DisplayMode` with `compareTo`, `equals`, `hashCode` and `toString`.

Modelling conventions:

- Java `float` is `real`.
- Java `int`, `long`, `short`, `byte` and `char` are subset types of `int`. Wrap-around is written out with `Wrap32` wherever the Java arithmetic can overflow: `IntRange.sizeSign`/`getSize`/`random`/`factorOf` (its `number - from`), `HashBuilder.add`, and `OglDisplayMode.compareTo`/`hashCode`.
- Classes whose fields change in place are Dafny classes: both `Matrix3D`s, `MatrixRow`, `Vector2D` and `HashBuilder`. Their methods state the new state through the value functions `Value()`, `Mat3` and `Vec`.
- Objects that never change are datatypes: `IntRange` and `DisplayMode`.
- `Math.sqrt`, as used by `getSize()` inside `setSize`/`normalizeMe`/`truncate`, is a parameter `size`/`length` with `size >= 0` and `size * size == getSizeSqr()`.
- The number `java.util.Random.nextInt` returns is a parameter `draw`.

## Model

Source paths are relative to the repository root.

| member | source | states |
|---|---|---|
| Matrices.OfSeq | src/com/alegria2d/core/math/Matrix3D.java:94-104 | the first nine values are laid out row-major: value idx goes to row idx/3, column idx%3 |
| Matrices.OfRows | src/com/alegria2d/core/math/Matrix3D.java:63-70 | entry (i, j) is matrix[i][j] for the first three rows and columns |
| Matrices.Identity | src/com/alegria2d/core/math/Matrix3D.java:117-121 | ones on the diagonal, zeros elsewhere |
| Matrices.With | src/com/alegria2d/core/math/Matrix3D.java:142-145 | entry (i, j) becomes v and every other entry is kept |
| Matrices.Plus | src/com/alegria2d/core/math/Matrix3D.java:289-296 | entrywise sum |
| Matrices.Minus | src/com/alegria2d/core/math/Matrix3D.java:316-323 | entrywise difference |
| Matrices.Scale | src/com/alegria2d/core/math/Matrix3D.java:404-411 | every entry multiplied by the scalar |
| Matrices.MulAt | src/com/alegria2d/core/math/Matrix3D.java:343-356 | entry (i, j) of the product is row i of the left matrix times column j of the right one |
| Matrices.PartialProductComplete | src/com/alegria2d/core/math/Matrix3D.java:348-353 | the running sum of the innermost loop, after all three terms, is the product entry |
| Matrices.Transpose | src/com/alegria2d/core/math/Matrix3D.java:508-519 | entry (i, j) of the result is entry (j, i) of the argument |
| Matrices.Mul | src/com/alegria2d/core/math/Matrix3D.java:343-356 | the row-by-column product; its entries are given by `MulAt`, and its determinant by `DeterminantOfProduct` |
| Matrices.Determinant | src/com/alegria2d/core/math/Matrix3D.java:427-431 | the first-row cofactor expansion of `getDeterminant()`; `DeterminantOfIdentity`, `DeterminantOfProduct` and `SingularHasNoInverse` state its properties |
| Matrices.Adjugate | src/com/alegria2d/core/math/Matrix3D.java:469-487 | the transposed cofactors that `inverse()` stores; `AdjugateProduct` states that its product with the matrix is the determinant times the identity |
| Matrices.Inverted | src/com/alegria2d/core/math/Matrix3D.java:440-487 | the adjugate divided by the determinant, the inverse the documentation promises; `InvertedIsInverse` states that it is one |
| Matrices.Apply | src/com/alegria2d/core/math/Matrix3D.java:388-395 | (a·x + b·y + c, d·x + e·y + f); the bottom row is ignored |
| Matrices.InverseDeterminant | src/com/alegria2d/core/math/Matrix3D.java:469-487 | for a non-zero determinant, the factor whose product with the determinant is 1 (what the inverse should divide by) |
| Matrices.PlusMinusInverse | src/com/alegria2d/core/math/Matrix3D.java:289-334 | adding then subtracting the same matrix (and the reverse) gives the original |
| Matrices.MulIdentity | src/com/alegria2d/core/math/Matrix3D.java:117-121 | the identity is neutral on both sides of the product |
| Matrices.TransposeInvolutive | src/com/alegria2d/core/math/Matrix3D.java:508-519 | transposing twice gives the original |
| Matrices.DeterminantOfIdentity | src/com/alegria2d/core/math/Matrix3D.java:427-431 | the identity has determinant 1 |
| Matrices.AdjugateProduct | src/com/alegria2d/core/math/Matrix3D.java:469-487 | a matrix times what `inverse()` computes (on either side) is the determinant times the identity |
| Matrices.AdjugateInverseIff | src/com/alegria2d/core/math/Matrix3D.java:469-487 | what `inverse()` computes is an inverse, on either side, exactly when the determinant is 1 |
| Matrices.AdjugateIsNotInverse | src/com/alegria2d/core/math/Matrix3D.java:469-487 | diag(2, 2, 2) is invertible (determinant 8), yet times its `inverse()` it is not the identity |
| Matrices.InvertedIsInverse | src/com/alegria2d/core/math/Matrix3D.java:440-487 | for a non-zero determinant, the adjugate divided by the determinant is a two-sided inverse |
| Matrices.DeterminantOfProduct | src/com/alegria2d/core/math/Matrix3D.java:343-356 | the determinant of a product is the product of the determinants |
| Matrices.SingularHasNoInverse | src/com/alegria2d/core/math/Matrix3D.java:427-438 | when the determinant is zero, no matrix multiplied on either side gives the identity |
| Matrices.SingularHasNoInverseAtAll | src/com/alegria2d/core/math/Matrix3D.java:436-438 | a matrix that `isInvertible()` rejects has no left and no right inverse at all |
| Matrices.ApplyIdentity | src/com/alegria2d/core/math/Matrix3D.java:388-395 | the identity maps every vector to itself |
| Matrices.Contents | src/com/alegria2d/core/math/Matrix3D.java:556-558 | the matrix value an array holds, entry for entry |
| Matrices.Extensionality | src/com/alegria2d/core/math/Matrix3D.java:598-614 | two matrices with the same nine entries are equal |
| CoreMatrix3D.Matrix3D.Install | src/com/alegria2d/core/math/Matrix3D.java:53-54 | the private constructor adopts the given 3x3 array |
| CoreMatrix3D.Matrix3D.OfRows | src/com/alegria2d/core/math/Matrix3D.java:63-70 | a fresh array holding the first three columns of the first three rows |
| CoreMatrix3D.Matrix3D.FromRows | src/com/alegria2d/core/math/Matrix3D.java:63-70 | fails with an index error unless there are three rows of at least three values; otherwise as OfRows |
| CoreMatrix3D.Matrix3D.Copy | src/com/alegria2d/core/math/Matrix3D.java:78-80 | a fresh array with the same entries |
| CoreMatrix3D.Matrix3D.FromValues | src/com/alegria2d/core/math/Matrix3D.java:94-104 | fails with IllegalArgument for fewer than nine values; otherwise a fresh matrix laid out row-major |
| CoreMatrix3D.Matrix3D.NewIdentity | src/com/alegria2d/core/math/Matrix3D.java:117-121 | a fresh identity matrix |
| CoreMatrix3D.Matrix3D.Get | src/com/alegria2d/core/math/Matrix3D.java:130-132 | the entry for a row and column in 0..2, otherwise an index error |
| CoreMatrix3D.Matrix3D.Set | src/com/alegria2d/core/math/Matrix3D.java:142-145 | changes exactly that entry and returns the same matrix; out of range, an index error and nothing changes |
| CoreMatrix3D.Matrix3D.GetA | src/com/alegria2d/core/math/Matrix3D.java:158-160 | what get(0, 0) reads |
| CoreMatrix3D.Matrix3D.GetB | src/com/alegria2d/core/math/Matrix3D.java:173-175 | what get(0, 1) reads |
| CoreMatrix3D.Matrix3D.GetC | src/com/alegria2d/core/math/Matrix3D.java:188-190 | what get(0, 2) reads |
| CoreMatrix3D.Matrix3D.GetD | src/com/alegria2d/core/math/Matrix3D.java:203-205 | what get(1, 0) reads |
| CoreMatrix3D.Matrix3D.GetE | src/com/alegria2d/core/math/Matrix3D.java:218-220 | what get(1, 1) reads |
| CoreMatrix3D.Matrix3D.GetF | src/com/alegria2d/core/math/Matrix3D.java:233-235 | what get(1, 2) reads |
| CoreMatrix3D.Matrix3D.GetG | src/com/alegria2d/core/math/Matrix3D.java:248-250 | what get(2, 0) reads |
| CoreMatrix3D.Matrix3D.GetH | src/com/alegria2d/core/math/Matrix3D.java:263-265 | what get(2, 1) reads |
| CoreMatrix3D.Matrix3D.GetK | src/com/alegria2d/core/math/Matrix3D.java:278-280 | what get(2, 2) reads |
| CoreMatrix3D.Matrix3D.Clone | src/com/alegria2d/core/math/Matrix3D.java:549-551 | an equal matrix on a fresh array |
| CoreMatrix3D.Matrix3D.PlusMe | src/com/alegria2d/core/math/Matrix3D.java:289-296 | the receiver becomes the sum, also when the argument is the receiver itself; returns this |
| CoreMatrix3D.Matrix3D.Plus | src/com/alegria2d/core/math/Matrix3D.java:305-307 | the sum in a fresh matrix; the receiver is unchanged |
| CoreMatrix3D.Matrix3D.MinusMe | src/com/alegria2d/core/math/Matrix3D.java:316-323 | the receiver becomes the difference; returns this |
| CoreMatrix3D.Matrix3D.Minus | src/com/alegria2d/core/math/Matrix3D.java:332-334 | the difference in a fresh matrix; the receiver is unchanged |
| CoreMatrix3D.Matrix3D.Multiply | src/com/alegria2d/core/math/Matrix3D.java:343-356 | the matrix product, accumulated by the triple loop into a fresh array |
| CoreMatrix3D.Matrix3D.MultiplyMe | src/com/alegria2d/core/math/Matrix3D.java:365-368 | the receiver takes the product's fresh array; returns this |
| CoreMatrix3D.Matrix3D.MultiplyVector | src/com/alegria2d/core/math/Matrix3D.java:388-395 | a fresh vector (a·x + b·y + c, d·x + e·y + f) |
| CoreMatrix3D.Matrix3D.MultiplyScalarMe | src/com/alegria2d/core/math/Matrix3D.java:404-411 | every entry of the receiver is multiplied in place; returns this |
| CoreMatrix3D.Matrix3D.MultiplyScalar | src/com/alegria2d/core/math/Matrix3D.java:420-422 | the scaled matrix in a fresh object; the receiver is unchanged |
| CoreMatrix3D.Matrix3D.GetDeterminant | src/com/alegria2d/core/math/Matrix3D.java:427-431 | the cofactor expansion along the first row equals the determinant |
| CoreMatrix3D.Matrix3D.IsInvertible | src/com/alegria2d/core/math/Matrix3D.java:436-438 | true exactly when the determinant is non-zero; then the true inverse exists on both sides, and otherwise no matrix is an inverse on either side |
| CoreMatrix3D.Matrix3D.Inverse | src/com/alegria2d/core/math/Matrix3D.java:469-487 | a fresh adjugate; the receiver times it is det·I, which is the identity only when det = 1 |
| CoreMatrix3D.Matrix3D.InverseMe | src/com/alegria2d/core/math/Matrix3D.java:452-455 | the receiver takes the adjugate's fresh array; returns this |
| CoreMatrix3D.Matrix3D.Transpose | src/com/alegria2d/core/math/Matrix3D.java:508-519 | the transpose in a fresh matrix; the receiver is unchanged |
| CoreMatrix3D.Matrix3D.TransposeMe | src/com/alegria2d/core/math/Matrix3D.java:540-543 | the receiver takes the transpose's fresh array; returns this |
| CoreMatrix3D.Matrix3D.ToArray | src/com/alegria2d/core/math/Matrix3D.java:556-558 | a fresh 3x3 array holding the entries |
| CoreMatrix3D.Matrix3D.GetAt | src/com/alegria2d/core/math/Matrix3D.java:583-587 | a fresh row view of this matrix for rows 0..2, otherwise an index error |
| CoreMatrix3D.Matrix3D.Equals | src/com/alegria2d/core/math/Matrix3D.java:598-614 | false for null, otherwise true exactly when all nine entries agree (same object included) |
| CoreMatrix3D.MatrixRow.constructor | src/com/alegria2d/core/math/Matrix3D.java:655-657 | a view on the given matrix and row |
| CoreMatrix3D.MatrixRow.PutAt | src/com/alegria2d/core/math/Matrix3D.java:666-669 | writes exactly one entry of the viewed matrix and returns the value; an index error when out of range |
| CoreMatrix3D.MatrixRow.GetAt | src/com/alegria2d/core/math/Matrix3D.java:677-682 | a column outside 0..2 gives IllegalArgument before the row is looked at; otherwise the entry or an index error |
| CoreMatrix3D.RowViewAgreesWithGet | src/com/alegria2d/core/math/Matrix3D.java:677-682 | reading through a row view is reading with get(row, col) |
| LegacyMatrix3D.Matrix3D.Install | src/com/alegria2d/math/Matrix3D.java:29-30 | the private constructor adopts the given 3x3 array |
| LegacyMatrix3D.Matrix3D.OfRows | src/com/alegria2d/math/Matrix3D.java:38-43 | a fresh array holding the first three columns of the first three rows |
| LegacyMatrix3D.Matrix3D.FromRows | src/com/alegria2d/math/Matrix3D.java:38-43 | an index error unless there are three rows of at least three values |
| LegacyMatrix3D.Matrix3D.Copy | src/com/alegria2d/math/Matrix3D.java:51-53 | a fresh array with the same entries |
| LegacyMatrix3D.Matrix3D.FromValues | src/com/alegria2d/math/Matrix3D.java:67-77 | IllegalArgument for fewer than nine values; otherwise laid out row-major |
| LegacyMatrix3D.Matrix3D.NewIdentity | src/com/alegria2d/math/Matrix3D.java:90-94 | a fresh identity matrix |
| LegacyMatrix3D.Matrix3D.Get | src/com/alegria2d/math/Matrix3D.java:103-105 | the entry for a row and column in 0..2, otherwise an index error |
| LegacyMatrix3D.Matrix3D.Set | src/com/alegria2d/math/Matrix3D.java:115-118 | changes exactly that entry; out of range, an index error and nothing changes |
| LegacyMatrix3D.Matrix3D.a | src/com/alegria2d/math/Matrix3D.java:131-133 | what get(0, 0) reads |
| LegacyMatrix3D.Matrix3D.b | src/com/alegria2d/math/Matrix3D.java:146-148 | what get(0, 1) reads |
| LegacyMatrix3D.Matrix3D.c | src/com/alegria2d/math/Matrix3D.java:161-163 | what get(0, 2) reads |
| LegacyMatrix3D.Matrix3D.d | src/com/alegria2d/math/Matrix3D.java:176-178 | what get(1, 0) reads |
| LegacyMatrix3D.Matrix3D.e | src/com/alegria2d/math/Matrix3D.java:191-193 | what get(1, 1) reads |
| LegacyMatrix3D.Matrix3D.f | src/com/alegria2d/math/Matrix3D.java:206-208 | what get(1, 2) reads |
| LegacyMatrix3D.Matrix3D.g | src/com/alegria2d/math/Matrix3D.java:221-223 | what get(2, 0) reads |
| LegacyMatrix3D.Matrix3D.h | src/com/alegria2d/math/Matrix3D.java:236-238 | what get(2, 1) reads |
| LegacyMatrix3D.Matrix3D.k | src/com/alegria2d/math/Matrix3D.java:240-253 | always an index error: it reads row 3 of a 3-row array |
| LegacyMatrix3D.Matrix3D.Clone | src/com/alegria2d/math/Matrix3D.java:520-522 | an equal matrix on a fresh array |
| LegacyMatrix3D.Matrix3D.PlusMe | src/com/alegria2d/math/Matrix3D.java:262-269 | the receiver becomes the sum; returns this |
| LegacyMatrix3D.Matrix3D.Plus | src/com/alegria2d/math/Matrix3D.java:278-280 | the sum in a fresh matrix; the receiver is unchanged |
| LegacyMatrix3D.Matrix3D.MinusMe | src/com/alegria2d/math/Matrix3D.java:289-296 | the receiver becomes the difference; returns this |
| LegacyMatrix3D.Matrix3D.Minus | src/com/alegria2d/math/Matrix3D.java:305-307 | the difference in a fresh matrix; the receiver is unchanged |
| LegacyMatrix3D.Matrix3D.Multiply | src/com/alegria2d/math/Matrix3D.java:316-329 | the matrix product in a fresh array |
| LegacyMatrix3D.Matrix3D.MultiplyMe | src/com/alegria2d/math/Matrix3D.java:338-341 | the receiver takes the product's fresh array |
| LegacyMatrix3D.Matrix3D.MultiplyVector | src/com/alegria2d/math/Matrix3D.java:361-368 | (a·x + b·y + c, d·x + e·y + f), without touching k() |
| LegacyMatrix3D.Matrix3D.MultiplyScalarMe | src/com/alegria2d/math/Matrix3D.java:377-384 | every entry multiplied in place |
| LegacyMatrix3D.Matrix3D.MultiplyScalar | src/com/alegria2d/math/Matrix3D.java:393-395 | the scaled matrix in a fresh object |
| LegacyMatrix3D.DeterminantOf | src/com/alegria2d/math/Matrix3D.java:400-404 | the determinant from the getters' outcomes: succeeds exactly when all nine succeed, and then equals the determinant; a failing k() after a() and e() is the result |
| LegacyMatrix3D.Matrix3D.GetDeterminant | src/com/alegria2d/math/Matrix3D.java:400-404 | always an index error, raised by k() |
| LegacyMatrix3D.IsNonZero | src/com/alegria2d/math/Matrix3D.java:409-411 | the comparison with 0 is made only on a computed determinant; a failure passes through |
| LegacyMatrix3D.Matrix3D.IsInvertible | src/com/alegria2d/math/Matrix3D.java:409-411 | always an index error |
| LegacyMatrix3D.AdjugateOf | src/com/alegria2d/math/Matrix3D.java:442-460 | the adjugate from the getters' outcomes: succeeds exactly when all nine succeed, and then equals the adjugate; a failing k() after e() is the result |
| LegacyMatrix3D.Matrix3D.Allocate | src/com/alegria2d/math/Matrix3D.java:442-460 | a fresh matrix for computed entries; a failure passes through |
| LegacyMatrix3D.Matrix3D.Inverse | src/com/alegria2d/math/Matrix3D.java:442-460 | always an index error |
| LegacyMatrix3D.Matrix3D.Adopt | src/com/alegria2d/math/Matrix3D.java:425-428 | takes the computed matrix's array, or leaves the receiver alone when the computation failed |
| LegacyMatrix3D.Matrix3D.InverseMe | src/com/alegria2d/math/Matrix3D.java:425-428 | always an index error, and the receiver is unchanged |
| LegacyMatrix3D.Matrix3D.Transpose | src/com/alegria2d/math/Matrix3D.java:481-490 | the transpose in a fresh matrix |
| LegacyMatrix3D.Matrix3D.TransposeMe | src/com/alegria2d/math/Matrix3D.java:511-514 | the receiver takes the transpose's fresh array |
| LegacyMatrix3D.Matrix3D.ToArray | src/com/alegria2d/math/Matrix3D.java:527-529 | a fresh 3x3 array holding the entries |
| LegacyMatrix3D.Matrix3D.GetAt | src/com/alegria2d/math/Matrix3D.java:554-558 | a fresh row view for rows 0..2, otherwise an index error |
| LegacyMatrix3D.MatrixRow.constructor | src/com/alegria2d/math/Matrix3D.java:569-571 | a view on the given matrix and row |
| LegacyMatrix3D.MatrixRow.PutAt | src/com/alegria2d/math/Matrix3D.java:580-583 | no check of its own: writes exactly one entry, or the array access fails with an index error |
| LegacyMatrix3D.MatrixRow.GetAt | src/com/alegria2d/math/Matrix3D.java:590-595 | a column outside 0..2 gives IllegalArgument; otherwise the entry or an index error |
| LegacyMatrix3D.RowViewAgreesWithGet | src/com/alegria2d/math/Matrix3D.java:590-595 | reading through a row view is reading with get(row, col) |
| Vectors.Vec.SizeSqr | src/com/alegria2d/math/Vector2D.java:158-160 | never negative, and zero exactly for the zero vector |
| Vectors.Vec.IsZero | src/com/alegria2d/math/Vector2D.java:167-169 | the squared length is zero |
| Vectors.Vec.IsNormal | src/com/alegria2d/math/Vector2D.java:176-178 | the squared length is one; `DividedBySizeIsNormal` states that a vector divided by its length is normal |
| Vectors.Vec.Plus | src/com/alegria2d/math/Vector2D.java:300-302 | the componentwise sum that `plus` returns in a new vector; `PlusMinusInverse` states that `minus` undoes it |
| Vectors.Vec.Minus | src/com/alegria2d/math/Vector2D.java:332-334 | the componentwise difference that `minus` returns; `MinusIsPlusNegative` relates it to `plus` and `negative` |
| Vectors.Vec.Scale | src/com/alegria2d/math/Vector2D.java:360-362 | both components times the scalar, as `multiply(float)` returns; `ScaleSizeSqr` gives its squared length |
| Vectors.Vec.Divided | src/com/alegria2d/math/Vector2D.java:394-396 | both components over the scalar, as `div(float)` returns; `ScaleDividedInverse` states that it undoes scaling |
| Vectors.Vec.Negative | src/com/alegria2d/math/Vector2D.java:414-416 | both components negated, as `negative()` returns |
| Vectors.Vec.DotProduct | src/com/alegria2d/math/Vector2D.java:448-458 | the unclamped `x * other.x + y * other.y` that `dot` computes before clamping; `DotSymmetric` and `NormalDotUnclamped` state its properties |
| Vectors.Vec.Dot | src/com/alegria2d/math/Vector2D.java:448-458 | the exact dot product when it lies in [-1, 1], otherwise the nearer bound |
| Vectors.Vec.Perpendicular | src/com/alegria2d/math/Vector2D.java:241-243 | orthogonal to the vector and of the same length |
| Vectors.Vec.CompareTo | src/com/alegria2d/math/Vector2D.java:535-543 | -1, 0 or 1, negative exactly for a smaller and zero exactly for an equal squared size |
| Vectors.Vec.GetAt | src/com/alegria2d/math/Vector2D.java:488-496 | index 0 gives x, 1 gives y, anything else an index error |
| Vectors.Vec.With | src/com/alegria2d/math/Vector2D.java:505-515 | the written component reads back and the other is kept |
| Vectors.PlusMinusInverse | src/com/alegria2d/math/Vector2D.java:285-334 | adding then subtracting the same vector (and the reverse) gives the original |
| Vectors.MinusIsPlusNegative | src/com/alegria2d/math/Vector2D.java:315-334 | subtracting is adding the negative; negating twice is the identity; negating is scaling by -1 |
| Vectors.ScaleDividedInverse | src/com/alegria2d/math/Vector2D.java:345-396 | multiplying and dividing by the same non-zero scalar cancel |
| Vectors.ScaleSizeSqr | src/com/alegria2d/math/Vector2D.java:345-362 | scaling by s multiplies the squared size by s² |
| Vectors.RescaledSize | src/com/alegria2d/math/Vector2D.java:187-197 | scaling a non-zero vector by newSize/size gives squared size newSize² |
| Vectors.DividedBySizeIsNormal | src/com/alegria2d/math/Vector2D.java:250-264 | a non-zero vector divided by its size is normal |
| Vectors.CompareToOrdering | src/com/alegria2d/math/Vector2D.java:535-543 | compareTo is antisymmetric, transitive and zero on a vector and itself |
| Vectors.DotSymmetric | src/com/alegria2d/math/Vector2D.java:448-458 | both the exact and the clamped dot product are symmetric |
| Vectors.NormalDotUnclamped | src/com/alegria2d/math/Vector2D.java:448-458 | for two normal vectors the clamp never applies |
| Vectors.PerpendicularFourTimes | src/com/alegria2d/math/Vector2D.java:241-243 | two quarter turns negate, four give the vector back |
| Vectors.PutThenGet | src/com/alegria2d/math/Vector2D.java:488-515 | putAt then getAt reads the value back, the other component is untouched, and writing back what was read changes nothing |
| Vectors.Vector2D.Zero | src/com/alegria2d/math/Vector2D.java:60-62 | the zero vector |
| Vectors.Vector2D.constructor | src/com/alegria2d/math/Vector2D.java:70-72 | the vector (x, y) |
| Vectors.Vector2D.Copy | src/com/alegria2d/math/Vector2D.java:79-81 | a copy of the other vector |
| Vectors.Vector2D.Set | src/com/alegria2d/math/Vector2D.java:101-105 | sets both components; returns this |
| Vectors.Vector2D.SetFrom | src/com/alegria2d/math/Vector2D.java:113-115 | copies the other vector's components; returns this |
| Vectors.Vector2D.Clone | src/com/alegria2d/math/Vector2D.java:474-480 | an equal fresh vector |
| Vectors.Vector2D.PlusMe | src/com/alegria2d/math/Vector2D.java:285-289 | the receiver becomes the sum; returns this |
| Vectors.Vector2D.Plus | src/com/alegria2d/math/Vector2D.java:300-302 | the sum in a fresh vector |
| Vectors.Vector2D.MinusMe | src/com/alegria2d/math/Vector2D.java:315-319 | the receiver becomes the difference; returns this |
| Vectors.Vector2D.Minus | src/com/alegria2d/math/Vector2D.java:332-334 | the difference in a fresh vector |
| Vectors.Vector2D.MultiplyMe | src/com/alegria2d/math/Vector2D.java:345-349 | the receiver is scaled; returns this |
| Vectors.Vector2D.Multiply | src/com/alegria2d/math/Vector2D.java:360-362 | the scaled vector in a fresh object |
| Vectors.Vector2D.DivMe | src/com/alegria2d/math/Vector2D.java:374-381 | 0 gives DivideByZero with the receiver untouched; otherwise both components are divided |
| Vectors.Vector2D.Div | src/com/alegria2d/math/Vector2D.java:394-396 | the quotient in a fresh vector, or DivideByZero |
| Vectors.Vector2D.NegativeMe | src/com/alegria2d/math/Vector2D.java:404-408 | the receiver is negated; returns this |
| Vectors.Vector2D.Negative | src/com/alegria2d/math/Vector2D.java:414-416 | the negated vector in a fresh object |
| Vectors.Vector2D.GetPerpendicular | src/com/alegria2d/math/Vector2D.java:241-243 | the fresh vector (-y, x) |
| Vectors.Vector2D.PutAt | src/com/alegria2d/math/Vector2D.java:505-515 | writes exactly one component and returns the value; other indices give an index error and change nothing |
| Vectors.Vector2D.ToArray | src/com/alegria2d/math/Vector2D.java:522-524 | a fresh array [x, y] |
| Vectors.Vector2D.SetSize | src/com/alegria2d/math/Vector2D.java:187-197 | the zero vector is left unchanged; any other vector is rescaled to squared size newSize² |
| Vectors.Vector2D.NormalizeMe | src/com/alegria2d/math/Vector2D.java:250-264 | zero and normal vectors are left unchanged; any other vector becomes normal |
| Vectors.Vector2D.Normalize | src/com/alegria2d/math/Vector2D.java:272-274 | the same on a fresh copy |
| Vectors.Vector2D.Equals | src/com/alegria2d/math/Vector2D.java:422-433 | false for null, otherwise true exactly when both components agree |
| IntRanges.Abs32 | src/com/alegria2d/core/math/IntRange.java:267-269 | Java's Math.abs on int: the magnitude, except that the most negative int maps to itself |
| IntRanges.Round | src/com/alegria2d/core/math/IntRange.java:198-204 | Math.round: the whole number r with r ≤ x + ½ < r + 1, saturated to the int range |
| IntRanges.RoundWhole | src/com/alegria2d/core/math/IntRange.java:198-204 | rounding a whole number gives it back |
| IntRanges.RoundBetween | src/com/alegria2d/core/math/IntRange.java:198-204 | rounding keeps a value between two whole numbers between them |
| IntRanges.NewIntRange | src/com/alegria2d/core/math/IntRange.java:69-92 | a valid range with the given ends, a single number exactly when from == to; a generator passed for two distinct ends is kept |
| IntRanges.SingleNumber | src/com/alegria2d/core/math/IntRange.java:101-103 | a single-number range containing exactly that number |
| IntRanges.IntRange.Min | src/com/alegria2d/core/math/IntRange.java:132-134 | the smaller of from and to |
| IntRanges.IntRange.Max | src/com/alegria2d/core/math/IntRange.java:140-142 | the larger of from and to |
| IntRanges.IntRange.IsInRange | src/com/alegria2d/core/math/IntRange.java:182-184 | between the two ends, in either direction |
| IntRanges.IntRange.IsSingleNumber | src/com/alegria2d/core/math/IntRange.java:151-153 | no generator is held; `SingleNumberIffEqualEnds` states that this is exactly when both ends are equal |
| IntRanges.IntRange.IsAscending | src/com/alegria2d/core/math/IntRange.java:158-160 | from is at most to |
| IntRanges.IntRange.IsDescending | src/com/alegria2d/core/math/IntRange.java:165-167 | the negation of ascending, so from is greater than to |
| IntRanges.IntRange.SizeSign | src/com/alegria2d/core/math/IntRange.java:222-224 | to - from when it fits an int; zero exactly when the ends are equal |
| IntRanges.IntRange.GetSize | src/com/alegria2d/core/math/IntRange.java:267-269 | the number of ints in the range, when neither subtraction nor increment overflows |
| IntRanges.IntRange.Size | src/com/alegria2d/core/math/IntRange.java:267-269 | the exact count: a value is in range exactly when it is among the Size() ints from Min() |
| IntRanges.IntRange.Random | src/com/alegria2d/core/math/IntRange.java:172-177 | a single number is returned as is; a non-positive size throws; otherwise the draw plus from, in range for an ascending range |
| IntRanges.IntRange.RandomInRange | src/com/alegria2d/core/math/IntRange.java:172-177 | a draw below the exact size lands in the range in both directions |
| IntRanges.IntRange.GetValue | src/com/alegria2d/core/math/IntRange.java:198-204 | a single-number range gives `to` |
| IntRanges.IntRange.FactorOf | src/com/alegria2d/core/math/IntRange.java:215-220 | a single-number range gives `to` itself; a number out of range gives 0 |
| IntRanges.IntRange.Convert | src/com/alegria2d/core/math/IntRange.java:237-239 | a single-number target gives its `to` |
| IntRanges.IntRange.Reverse | src/com/alegria2d/core/math/IntRange.java:260-262 | the ends are swapped with the same min, max and validity, and the generator is shared; a single number gives the range itself |
| IntRanges.Clamp | src/com/alegria2d/core/math/IntRange.java:199-202 | the factor clamped to [0, 1], unchanged inside it |
| IntRanges.GetValueInRange | src/com/alegria2d/core/math/IntRange.java:198-204 | for a span that fits an int, getValue lies in the range for any factor |
| IntRanges.FactorOfInUnit | src/com/alegria2d/core/math/IntRange.java:215-220 | for a span that fits, factorOf lies in [0, 1] |
| IntRanges.GetValueEnds | src/com/alegria2d/core/math/IntRange.java:198-204 | factor 0 (or less) gives from, factor 1 (or more) gives to |
| IntRanges.FactorOfRoundTrip | src/com/alegria2d/core/math/IntRange.java:198-220 | getValue(factorOf(n)) == n for every n in the range |
| IntRanges.ConvertEnds | src/com/alegria2d/core/math/IntRange.java:237-239 | convert maps the source range's from and to onto the target's from and to |
| IntRanges.ReverseInvolutive | src/com/alegria2d/core/math/IntRange.java:260-262 | reversing twice gives the original range |
| IntRanges.SingleNumberIffEqualEnds | src/com/alegria2d/core/math/IntRange.java:151-153 | single number exactly when from == to, exactly when the size is 1 |
| IntRanges.RandomLeavesRange | src/com/alegria2d/core/math/IntRange.java:172-177 | on IntRange(10, 6) the draw 4 gives 14, outside the range |
| IntRanges.GetSizeOverflows | src/com/alegria2d/core/math/IntRange.java:267-269 | IntRange(0, 2³¹-1) has getSize() = -2³¹, although it holds 2³¹ numbers, and random() throws |
| JavaInts.Wrap32 | src/com/alegria2d/math/HashBuilder.java:178-181 | the int congruent to the exact result modulo 2³², the result itself when it fits |
| JavaInts.Wrap32DifferenceZero | src/com/alegria2d/core/math/IntRange.java:222-224 | a wrapped difference of two ints is zero exactly when they are equal |
| JavaInts.CharToShort | src/com/alegria2d/math/HashBuilder.java:189-191 | the (short) cast of a char: congruent modulo 2¹⁶, negative exactly from 0x8000 up |
| JavaInts.LongToInt | src/com/alegria2d/math/HashBuilder.java:199-201 | the (int) cast of a long keeps the value modulo 2³² |
| Hashing.FoldSnoc | src/com/alegria2d/math/HashBuilder.java:273-277 | folding one more value is one more add step |
| Hashing.Step | src/com/alegria2d/math/HashBuilder.java:178-181 | one `add(int)`: seed times the hash plus the value, wrapped to 32 bits |
| Hashing.Fold | src/com/alegria2d/math/HashBuilder.java:273-277 | `add` over an array, one `Step` per element in order; `FoldSnoc`, `FoldAppend` and `FoldEmpty` state its properties |
| Hashing.LongHash | src/com/alegria2d/math/HashBuilder.java:199-201 | the low 32 bits of the long XOR its high 32 bits, cast to int; `LongHashOfSmall` and `LongHashOfMinusOne` state its values |
| Hashing.CharHash | src/com/alegria2d/math/HashBuilder.java:189-191 | the char through a `(short)` cast; `CharHashSign` states its sign |
| Hashing.HashBuilder.HashCode | src/com/alegria2d/math/HashBuilder.java:376-378 | the hash accumulated so far |
| Hashing.FoldAppend | src/com/alegria2d/math/HashBuilder.java:249-349 | adding two arrays in turn is adding their concatenation |
| Hashing.FoldEmpty | src/com/alegria2d/math/HashBuilder.java:249-349 | an empty array changes nothing |
| Hashing.Map | src/com/alegria2d/math/HashBuilder.java:249-349 | each element is converted exactly as its single-value add would |
| Hashing.BooleanHash | src/com/alegria2d/math/HashBuilder.java:209-211 | true adds 1, false adds 0 |
| Hashing.ObjectHash | src/com/alegria2d/math/HashBuilder.java:239-241 | null adds 0, any other object its own hash |
| Hashing.LongHashOfSmall | src/com/alegria2d/math/HashBuilder.java:199-201 | a non-negative long that fits an int hashes to itself |
| Hashing.LongHashOfMinusOne | src/com/alegria2d/math/HashBuilder.java:199-201 | -1L hashes to 0, its two halves cancelling |
| Hashing.CharHashSign | src/com/alegria2d/math/HashBuilder.java:189-191 | chars below 0x8000 add themselves, the others a negative int |
| Hashing.HashBuilder.constructor | src/com/alegria2d/math/HashBuilder.java:71-73 | base 17, seed 37, and the hash is the base |
| Hashing.HashBuilder.WithBaseSeed | src/com/alegria2d/math/HashBuilder.java:152-163 | the given base and seed, the hash being the base |
| Hashing.HashBuilder.Create | src/com/alegria2d/math/HashBuilder.java:152-163 | IllegalArgument exactly when base or seed is below 3 |
| Hashing.HashBuilder.OfInt | src/com/alegria2d/math/HashBuilder.java:80-83 | the default builder after one add(int) |
| Hashing.HashBuilder.OfLong | src/com/alegria2d/math/HashBuilder.java:90-93 | the default builder after one add(long) |
| Hashing.HashBuilder.OfChar | src/com/alegria2d/math/HashBuilder.java:100-103 | the default builder after one add(char) |
| Hashing.HashBuilder.OfBoolean | src/com/alegria2d/math/HashBuilder.java:110-113 | the default builder after one add(boolean) |
| Hashing.HashBuilder.OfObject | src/com/alegria2d/math/HashBuilder.java:140-143 | the default builder after one add(Object) |
| Hashing.HashBuilder.Reset | src/com/alegria2d/math/HashBuilder.java:168-170 | the hash goes back to the base; base and seed are kept |
| Hashing.HashBuilder.Add | src/com/alegria2d/math/HashBuilder.java:178-181 | result := seed·result + value in int arithmetic; returns this |
| Hashing.HashBuilder.AddChar | src/com/alegria2d/math/HashBuilder.java:189-191 | one step with the char's short value |
| Hashing.HashBuilder.AddLong | src/com/alegria2d/math/HashBuilder.java:199-201 | one step with (int)(v ^ (v >>> 32)) |
| Hashing.HashBuilder.AddBoolean | src/com/alegria2d/math/HashBuilder.java:209-211 | one step with 1 or 0 |
| Hashing.HashBuilder.AddObject | src/com/alegria2d/math/HashBuilder.java:239-241 | one step with 0 for null or the object's hash |
| Hashing.HashBuilder.AddInts | src/com/alegria2d/math/HashBuilder.java:273-277 | the elements folded left to right, one step each |
| Hashing.HashBuilder.AddBytes | src/com/alegria2d/math/HashBuilder.java:249-253 | the widened elements folded left to right |
| Hashing.HashBuilder.AddShorts | src/com/alegria2d/math/HashBuilder.java:261-265 | the widened elements folded left to right |
| Hashing.HashBuilder.AddChars | src/com/alegria2d/math/HashBuilder.java:285-289 | the elements' short values folded left to right |
| Hashing.HashBuilder.AddLongs | src/com/alegria2d/math/HashBuilder.java:297-301 | the elements' long hashes folded left to right |
| Hashing.HashBuilder.AddBooleans | src/com/alegria2d/math/HashBuilder.java:309-313 | 1 or 0 per element folded left to right |
| Hashing.HashBuilder.AddObjects | src/com/alegria2d/math/HashBuilder.java:345-349 | 0 or the hash per element folded left to right |
| Hashing.HashBuilder.Equals | src/com/alegria2d/math/HashBuilder.java:358-368 | false for null, otherwise true exactly when result, base and seed agree |
| MathUtil.SquaredDistance | src/com/alegria2d/math/MathUtil.java:60-62 | never negative, and zero exactly when the points coincide |
| MathUtil.SquaredDistanceSymmetric | src/com/alegria2d/math/MathUtil.java:60-62 | the squared distance does not depend on the order of the points |
| MathUtil.DistanceSqr | src/com/alegria2d/math/MathUtil.java:60-62 | the squared distance of the points' values, with both points unchanged |
| MathUtil.ReflectedReversesNormalPart | src/com/alegria2d/math/MathUtil.java:94-96 | the reflection on a unit normal reverses the ray's component along the normal |
| MathUtil.ReflectedInvolutive | src/com/alegria2d/math/MathUtil.java:94-96 | reflecting twice on a unit normal gives the ray back |
| MathUtil.ReflectedKeepsSize | src/com/alegria2d/math/MathUtil.java:94-96 | reflecting on a unit normal keeps the ray's length |
| MathUtil.ReflectedAsWrittenAgrees | src/com/alegria2d/math/MathUtil.java:94-96 | reflect as written is the reflection whenever the exact dot product lies in [-1, 1] |
| MathUtil.ReflectedAsWrittenClamps | src/com/alegria2d/math/MathUtil.java:94-96 | a ray (0, y), y < -1, on normal (0, 1) comes back as (0, y + 2) instead of (0, -y) |
| MathUtil.Reflect | src/com/alegria2d/math/MathUtil.java:94-96 | a fresh vector ray - normal·(2·dot(ray, normal)), with the clamped dot, arguments unchanged |
| MathUtil.Truncate | src/com/alegria2d/math/MathUtil.java:38-40 | returns the same object; afterwards its squared size is at most size²; an already short vector (the zero vector among them) is unchanged, a longer one is rescaled to size |
| OglDisplayModes.DisplayMode.CompareTo | lwjgl/com/alegria2d/driver/lwjgl/graphics/OglDisplayMode.java:64-72 | zero exactly for equal modes, whatever the overflow |
| OglDisplayModes.DisplayMode.Equals | lwjgl/com/alegria2d/driver/lwjgl/graphics/OglDisplayMode.java:75-88 | false for null and other classes, otherwise true exactly for the same four fields; equal modes hash alike |
| OglDisplayModes.CompareToOrdersDescending | lwjgl/com/alegria2d/driver/lwjgl/graphics/OglDisplayMode.java:64-72 | for non-negative fields, negative exactly when the first differing field (width, height, depth, refresh rate) is larger in the receiver |
| OglDisplayModes.CompareToAntisymmetric | lwjgl/com/alegria2d/driver/lwjgl/graphics/OglDisplayMode.java:64-72 | zero on a mode and itself; swapping non-negative modes negates the result |
| OglDisplayModes.CompareToTransitive | lwjgl/com/alegria2d/driver/lwjgl/graphics/OglDisplayMode.java:64-72 | transitive for non-negative modes |
| OglDisplayModes.CompareToConsistentWithEquals | lwjgl/com/alegria2d/driver/lwjgl/graphics/OglDisplayMode.java:64-88 | compareTo is zero exactly when equals holds |
| OglDisplayModes.HashCodeSteps | lwjgl/com/alegria2d/driver/lwjgl/graphics/OglDisplayMode.java:91-98 | the hash is four 27·result + field steps from 17, as HashBuilder's add |
| OglDisplayModes.DisplayMode.HashCode | lwjgl/com/alegria2d/driver/lwjgl/graphics/OglDisplayMode.java:91-98 | 17, then 27 times the hash plus each of width, height, depth and refresh rate, wrapped to 32 bits; `HashCodeSteps` and `HashCodePolynomial` state its value |
| OglDisplayModes.DisplayMode.ToString | lwjgl/com/alegria2d/driver/lwjgl/graphics/OglDisplayMode.java:101-103 | width, height, depth and refresh rate in decimal as `WxHxD@RHz`; `ToStringInjective` states that different modes print differently |
| OglDisplayModes.HashCodePolynomial | lwjgl/com/alegria2d/driver/lwjgl/graphics/OglDisplayMode.java:91-98 | the hash is 17·27⁴ + width·27³ + height·27² + depth·27 + refresh rate modulo 2³² |
| OglDisplayModes.DecimalString | lwjgl/com/alegria2d/driver/lwjgl/graphics/OglDisplayMode.java:101-103 | what %d prints: digits, after a minus sign exactly for a negative number |
| OglDisplayModes.DigitsRoundTrip | lwjgl/com/alegria2d/driver/lwjgl/graphics/OglDisplayMode.java:101-103 | reading back the digits printed for a natural number gives the number |
| OglDisplayModes.DecimalRoundTrip | lwjgl/com/alegria2d/driver/lwjgl/graphics/OglDisplayMode.java:101-103 | reading back what %d prints gives the number |
| OglDisplayModes.DecimalStringInjective | lwjgl/com/alegria2d/driver/lwjgl/graphics/OglDisplayMode.java:101-103 | %d prints different numbers differently |
| OglDisplayModes.NoSeparatorIn | lwjgl/com/alegria2d/driver/lwjgl/graphics/OglDisplayMode.java:101-103 | %d never prints 'x' or '@' |
| OglDisplayModes.ToStringInjective | lwjgl/com/alegria2d/driver/lwjgl/graphics/OglDisplayMode.java:101-103 | "<w>x<h>x<d>@<r>Hz" determines the mode: different modes print differently |

## Left out

- Floating point: `float` is modelled as `real`. NaN, infinities, -0.0, rounding of every float operation and `==` on floats are not modelled.
- `IntRanges.Round` saturates like `Math.round(float)` but rounds the exact real `x + 1/2` down. Java computes in float.
- Square roots and trigonometry: `Vector2D.getSize`, `getAngleX`, `rotate`/`rotateMe` and `createBySizeAngle`, and `MathUtil.distance` and `angleBetween`. `setSize`, `normalizeMe`/`normalize` and `truncate` take the square root as a parameter.
- `java.util.Random`: the generator is an opaque token and the number `nextInt` draws is a parameter. The distribution is not modelled.
- `IntRange.convert(float, FloatRange)`: FloatRange is not part of this model.
- `IntRange.getFrom`/`getTo` are the fields `from` and `to`.
- `HashBuilder` float and double overloads (`add(float)`, `add(double)`, their array forms and constructors): they depend on `Float.floatToIntBits` and `Double.doubleToLongBits`.
- `add(Object)`: for a non-null object it calls that object's `hashCode`. The result is a parameter (`Option<Int32>`).
- `hashCode`, `similar` and `toString` of `core.math.Matrix3D`: they rely on the `core.math` HashBuilder and MathUtil, which are not part of this model, and on string formatting.
- `Vector2D.hashCode` and `toString`.
- The `getClass()` comparison of `equals`: each `Equals` takes only objects of its own class (or null). `OglDisplayModes.DisplayMode.Equals` is the exception: its `JavaObject` argument has a case for another class.
- Java `assert` statements (such as the one in `inverse()`): disabled by default at run time, so not modelled.
- Matrix3D constructor `float[][]`: Java copies the first three entries of the first three rows. A shorter array throws `ArrayIndexOutOfBoundsException`; this is modelled as `FromRows`' index error.
- `multiply(Vector2D)` in `core.math.Matrix3D` takes a `core.math.Vector2D`, which is not part of this model. The model uses `com.alegria2d.math.Vector2D`, whose x and y are the same.
- `IntRanges.IntRange.GetValue`, `FactorOf` and `Convert`: their contracts only state the single-number and out-of-range branches. The rest is stated by the lemmas GetValueInRange, GetValueEnds, FactorOfInUnit, FactorOfRoundTrip and ConvertEnds, for ranges whose span `to - from` fits an `int`.
- `OglDisplayModes.CompareToOrdersDescending`, `CompareToAntisymmetric` and `CompareToTransitive` are stated for modes with non-negative fields (as real screen modes have). For other values the subtraction can overflow.
- `OglDisplayModes.DisplayMode.ToString`: `String.format` uses the default locale, whose digits can differ from ASCII (Arabic-Indic digits, for example). `DecimalString` always prints the ASCII digits 0-9.
- Driver code, interfaces, exception classes and tests: not part of this model.

## Findings

| source | as written | input that shows it | evidently intended | confidence | as-written member | corrected member |
|---|---|---|---|---|---|---|
| src/com/alegria2d/core/math/Matrix3D.java:469-487 | `inverse()` returns the adjugate and never divides by the determinant | diag(2, 2, 2): determinant 8, and the matrix times `inverse()` is 8·I | adjugate / determinant, so that this · inverse() = I as documented | not executed | Matrices.AdjugateIsNotInverse | Matrices.InvertedIsInverse |
| src/com/alegria2d/math/Matrix3D.java:251-253 | `k()` reads A[3][2], outside the 3x3 array | any matrix: `k()`, `getDeterminant()`, `isInvertible()`, `inverse()` and `inverseMe()` throw ArrayIndexOutOfBoundsException | A[2][2], as in `getK()` of the newer class | not executed | LegacyMatrix3D.Matrix3D.GetDeterminant | CoreMatrix3D.Matrix3D.GetDeterminant |
| src/com/alegria2d/core/math/IntRange.java:172-177 | `random()` adds `nextInt(getSize())` to `from` | IntRange(10, 6) with draw 4 gives 14, outside [6, 10] | count up from `getMin()`, so the result stays in range in both directions | not executed | IntRanges.RandomLeavesRange | IntRanges.IntRange.RandomInRange |
| src/com/alegria2d/core/math/IntRange.java:267-269 | `getSize()` computes `abs(to - from) + 1` in int arithmetic | IntRange(0, 2147483647) gives -2147483648, and `random()` then throws | the true count of numbers, 2³¹ here | not executed | IntRanges.GetSizeOverflows | IntRanges.IntRange.Size |
| src/com/alegria2d/math/MathUtil.java:94-96 | `reflect` uses `dot`, which clamps to [-1, 1] | ray (0, -5), normal (0, 1) gives (0, -3) | the exact dot product, giving (0, 5) | not executed | MathUtil.ReflectedAsWrittenClamps | MathUtil.ReflectedInvolutive |
