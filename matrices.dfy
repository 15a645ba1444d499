/** The value of a 3x3 float matrix (modelled with reals) and the algebra both
    Matrix3D classes implement. Entries are named after the getters:

        [a b c]
        [d e f]
        [g h k]
*/
module Matrices {
  import opened Vectors

  /** Both indices lie in 0..2. */
  predicate InRange(i: int, j: int)
  {
    0 <= i < 3 && 0 <= j < 3
  }

  datatype Mat3 = Mat3(a: real, b: real, c: real,
                       d: real, e: real, f: real,
                       g: real, h: real, k: real)
  {
    /** The entry in row `i`, column `j`. */
    function At(i: int, j: int): real
      requires InRange(i, j)
    {
      if i == 0 then (if j == 0 then a else if j == 1 then b else c)
      else if i == 1 then (if j == 0 then d else if j == 1 then e else f)
      else (if j == 0 then g else if j == 1 then h else k)
    }
  }

  /** Two matrices with the same entries are the same matrix. */
  lemma Extensionality(m: Mat3, n: Mat3)
    requires forall i, j | InRange(i, j) :: m.At(i, j) == n.At(i, j)
    ensures m == n
  {
    assert m.At(0, 0) == n.At(0, 0) && m.At(0, 1) == n.At(0, 1) && m.At(0, 2) == n.At(0, 2);
    assert m.At(1, 0) == n.At(1, 0) && m.At(1, 1) == n.At(1, 1) && m.At(1, 2) == n.At(1, 2);
    assert m.At(2, 0) == n.At(2, 0) && m.At(2, 1) == n.At(2, 1) && m.At(2, 2) == n.At(2, 2);
  }

  /** The matrix held in a 3x3 array, row by row. */
  function Contents(B: array2<real>): (m: Mat3)
    requires B.Length0 == 3 && B.Length1 == 3
    reads B
    ensures forall i, j | InRange(i, j) :: m.At(i, j) == B[i, j]
  {
    Mat3(B[0, 0], B[0, 1], B[0, 2],
         B[1, 0], B[1, 1], B[1, 2],
         B[2, 0], B[2, 1], B[2, 2])
  }

  /** The first nine values laid out row-major: value `idx` lands in row idx / 3,
      column idx % 3. */
  function OfSeq(values: seq<real>): (m: Mat3)
    requires |values| >= 9
    ensures forall idx | 0 <= idx < 9 :: m.At(idx / 3, idx % 3) == values[idx]
  {
    Mat3(values[0], values[1], values[2],
         values[3], values[4], values[5],
         values[6], values[7], values[8])
  }

  /** The first three entries of the first three rows. */
  function OfRows(rows: seq<seq<real>>): (m: Mat3)
    requires |rows| >= 3 && forall i | 0 <= i < 3 :: |rows[i]| >= 3
    ensures forall i, j | InRange(i, j) :: m.At(i, j) == rows[i][j]
  {
    Mat3(rows[0][0], rows[0][1], rows[0][2],
         rows[1][0], rows[1][1], rows[1][2],
         rows[2][0], rows[2][1], rows[2][2])
  }

  /** The identity: ones on the diagonal, zeros elsewhere. */
  function Identity(): (m: Mat3)
    ensures forall i, j | InRange(i, j) :: m.At(i, j) == if i == j then 1.0 else 0.0
  {
    Mat3(1.0, 0.0, 0.0, 0.0, 1.0, 0.0, 0.0, 0.0, 1.0)
  }

  /** The matrix with entry (i, j) replaced by `v`. */
  function With(m: Mat3, i: int, j: int, v: real): (r: Mat3)
    requires InRange(i, j)
    ensures r.At(i, j) == v
    ensures forall p, q | InRange(p, q) && (p != i || q != j) :: r.At(p, q) == m.At(p, q)
  {
    if i == 0 then
      (if j == 0 then m.(a := v) else if j == 1 then m.(b := v) else m.(c := v))
    else if i == 1 then
      (if j == 0 then m.(d := v) else if j == 1 then m.(e := v) else m.(f := v))
    else
      (if j == 0 then m.(g := v) else if j == 1 then m.(h := v) else m.(k := v))
  }

  /** Entrywise sum. */
  function Plus(m: Mat3, n: Mat3): (r: Mat3)
    ensures forall i, j | InRange(i, j) :: r.At(i, j) == m.At(i, j) + n.At(i, j)
  {
    Mat3(m.a + n.a, m.b + n.b, m.c + n.c,
         m.d + n.d, m.e + n.e, m.f + n.f,
         m.g + n.g, m.h + n.h, m.k + n.k)
  }

  /** Entrywise difference. */
  function Minus(m: Mat3, n: Mat3): (r: Mat3)
    ensures forall i, j | InRange(i, j) :: r.At(i, j) == m.At(i, j) - n.At(i, j)
  {
    Mat3(m.a - n.a, m.b - n.b, m.c - n.c,
         m.d - n.d, m.e - n.e, m.f - n.f,
         m.g - n.g, m.h - n.h, m.k - n.k)
  }

  /** The product of two entries. Every product of entries in this module goes
      through this function, so that equal products are recognised as equal terms. */
  function Times(x: real, y: real): real
  {
    x * y
  }

  /** The sum of three pairwise products: a row of one matrix times a column of
      another. */
  function Dot(x0: real, x1: real, x2: real, y0: real, y1: real, y2: real): real
  {
    Times(x0, y0) + Times(x1, y1) + Times(x2, y2)
  }

  /** The 2x2 determinant x*y - z*w. */
  function Minor(x: real, y: real, z: real, w: real): real
  {
    Times(x, y) - Times(z, w)
  }

  /** Multiplying by one keeps a value, multiplying by zero gives zero. */
  lemma TimesUnit(x: real)
    ensures Times(1.0, x) == x && Times(x, 1.0) == x
    ensures Times(0.0, x) == 0.0 && Times(x, 0.0) == 0.0
  {
  }

  /** A common factor of one side of a row-by-column sum can be taken out. */
  lemma DotScaled(x0: real, x1: real, x2: real, y0: real, y1: real, y2: real, s: real)
    ensures Dot(x0, x1, x2, Times(y0, s), Times(y1, s), Times(y2, s)) == Times(Dot(x0, x1, x2, y0, y1, y2), s)
    ensures Dot(Times(x0, s), Times(x1, s), Times(x2, s), y0, y1, y2) == Times(Dot(x0, x1, x2, y0, y1, y2), s)
  {
  }

  /** Every entry multiplied by `s`. */
  function Scale(m: Mat3, s: real): (r: Mat3)
    ensures forall i, j | InRange(i, j) :: r.At(i, j) == Times(m.At(i, j), s)
  {
    Mat3(Times(m.a, s), Times(m.b, s), Times(m.c, s),
         Times(m.d, s), Times(m.e, s), Times(m.f, s),
         Times(m.g, s), Times(m.h, s), Times(m.k, s))
  }

  /** The sum of the first `l` products m[i][q] * n[q][j]: the value the product loop
      has accumulated in cell (i, j) after `l` rounds of its innermost loop. */
  function PartialProduct(m: Mat3, n: Mat3, i: int, j: int, l: int): real
    requires InRange(i, j) && 0 <= l <= 3
  {
    if l == 0 then 0.0
    else PartialProduct(m, n, i, j, l - 1) + Times(m.At(i, l - 1), n.At(l - 1, j))
  }

  /** Row `i` of `m` times column `j` of `n`. */
  function RowTimesColumn(m: Mat3, n: Mat3, i: int, j: int): real
    requires InRange(i, j)
  {
    Dot(m.At(i, 0), m.At(i, 1), m.At(i, 2), n.At(0, j), n.At(1, j), n.At(2, j))
  }

  /** The matrix product, written out on the named entries (entry by entry it is
      row i of `m` times column j of `n`, see MulAt). */
  function Mul(m: Mat3, n: Mat3): Mat3
  {
    Mat3(Dot(m.a, m.b, m.c, n.a, n.d, n.g), Dot(m.a, m.b, m.c, n.b, n.e, n.h), Dot(m.a, m.b, m.c, n.c, n.f, n.k),
         Dot(m.d, m.e, m.f, n.a, n.d, n.g), Dot(m.d, m.e, m.f, n.b, n.e, n.h), Dot(m.d, m.e, m.f, n.c, n.f, n.k),
         Dot(m.g, m.h, m.k, n.a, n.d, n.g), Dot(m.g, m.h, m.k, n.b, n.e, n.h), Dot(m.g, m.h, m.k, n.c, n.f, n.k))
  }

  /** Entry (i, j) of the product is row i of `m` times column j of `n`. */
  lemma MulAt(m: Mat3, n: Mat3, i: int, j: int)
    requires InRange(i, j)
    ensures Mul(m, n).At(i, j) == RowTimesColumn(m, n, i, j)
  {
  }

  /** After all three rounds the product loop holds exactly the product's entry. */
  lemma PartialProductComplete(m: Mat3, n: Mat3, i: int, j: int)
    requires InRange(i, j)
    ensures PartialProduct(m, n, i, j, 3) == Mul(m, n).At(i, j)
  {
    assert PartialProduct(m, n, i, j, 1) == Times(m.At(i, 0), n.At(0, j));
    MulAt(m, n, i, j);
  }

  /** Rows and columns swapped. */
  function Transpose(m: Mat3): (r: Mat3)
    ensures forall i, j | InRange(i, j) :: r.At(i, j) == m.At(j, i)
  {
    Mat3(m.a, m.d, m.g, m.b, m.e, m.h, m.c, m.f, m.k)
  }

  /** The transformation of the point `v` as a column (x, y, 1) by the top two rows,
      the bottom row being ignored: (a*x + b*y + c, d*x + e*y + f). */
  function Apply(m: Mat3, v: Vec): (r: Vec)
    ensures r.x == m.At(0, 0) * v.x + m.At(0, 1) * v.y + m.At(0, 2)
    ensures r.y == m.At(1, 0) * v.x + m.At(1, 1) * v.y + m.At(1, 2)
  {
    Vec(v.x * m.a + v.y * m.b + m.c, v.x * m.d + v.y * m.e + m.f)
  }

  /** The cofactor expansion along the first row. */
  function Determinant(m: Mat3): real
  {
    Dot(m.a, m.b, m.c, Minor(m.e, m.k, m.f, m.h), Minor(m.f, m.g, m.k, m.d), Minor(m.d, m.h, m.e, m.g))
  }

  /** The adjugate: the transposed matrix of cofactors. */
  function Adjugate(m: Mat3): Mat3
  {
    Mat3(Minor(m.e, m.k, m.f, m.h), Minor(m.c, m.h, m.b, m.k), Minor(m.b, m.f, m.c, m.e),
         Minor(m.f, m.g, m.d, m.k), Minor(m.a, m.k, m.c, m.g), Minor(m.c, m.d, m.a, m.f),
         Minor(m.d, m.h, m.e, m.g), Minor(m.b, m.g, m.a, m.h), Minor(m.a, m.e, m.b, m.d))
  }

  /** The reciprocal of a non-zero determinant. */
  function InverseDeterminant(m: Mat3): (r: real)
    requires Determinant(m) != 0.0
    ensures Times(Determinant(m), r) == 1.0
  {
    1.0 / Determinant(m)
  }

  /** The true inverse: the adjugate divided by the determinant. */
  function Inverted(m: Mat3): Mat3
    requires Determinant(m) != 0.0
  {
    Scale(Adjugate(m), InverseDeterminant(m))
  }

  /** Adding and then subtracting the same matrix gives the original back. */
  lemma PlusMinusInverse(m: Mat3, n: Mat3)
    ensures Minus(Plus(m, n), n) == m
    ensures Plus(Minus(m, n), n) == m
  {
  }

  /** The identity is neutral on both sides of the product. */
  lemma MulIdentity(m: Mat3)
    ensures Mul(Identity(), m) == m
    ensures Mul(m, Identity()) == m
  {
    TimesUnit(m.a); TimesUnit(m.b); TimesUnit(m.c);
    TimesUnit(m.d); TimesUnit(m.e); TimesUnit(m.f);
    TimesUnit(m.g); TimesUnit(m.h); TimesUnit(m.k);
  }

  /** Transposing twice gives the original matrix. */
  lemma TransposeInvolutive(m: Mat3)
    ensures Transpose(Transpose(m)) == m
  {
  }

  /** The identity has determinant one. */
  lemma DeterminantOfIdentity()
    ensures Determinant(Identity()) == 1.0
  {
    TimesUnit(1.0); TimesUnit(0.0);
  }

  /* The nine entries of m * Adjugate(m), one identity per lemma over the plain
     entries: row i against the cofactors of row j is the determinant when i == j, and
     otherwise the determinant of a matrix with two equal rows, zero. */

  lemma RowCofactors00(a: real, b: real, c: real, d: real, e: real, f: real, g: real, h: real, k: real)
    ensures Dot(a, b, c, Minor(e, k, f, h), Minor(f, g, d, k), Minor(d, h, e, g)) == Dot(a, b, c, Minor(e, k, f, h), Minor(f, g, k, d), Minor(d, h, e, g))
  {
  }

  lemma RowCofactors01(a: real, b: real, c: real, d: real, e: real, f: real, g: real, h: real, k: real)
    ensures Dot(a, b, c, Minor(c, h, b, k), Minor(a, k, c, g), Minor(b, g, a, h)) == 0.0
  {
  }

  lemma RowCofactors02(a: real, b: real, c: real, d: real, e: real, f: real, g: real, h: real, k: real)
    ensures Dot(a, b, c, Minor(b, f, c, e), Minor(c, d, a, f), Minor(a, e, b, d)) == 0.0
  {
  }

  lemma RowCofactors10(a: real, b: real, c: real, d: real, e: real, f: real, g: real, h: real, k: real)
    ensures Dot(d, e, f, Minor(e, k, f, h), Minor(f, g, d, k), Minor(d, h, e, g)) == 0.0
  {
  }

  lemma RowCofactors11(a: real, b: real, c: real, d: real, e: real, f: real, g: real, h: real, k: real)
    ensures Dot(d, e, f, Minor(c, h, b, k), Minor(a, k, c, g), Minor(b, g, a, h)) == Dot(a, b, c, Minor(e, k, f, h), Minor(f, g, k, d), Minor(d, h, e, g))
  {
  }

  lemma RowCofactors12(a: real, b: real, c: real, d: real, e: real, f: real, g: real, h: real, k: real)
    ensures Dot(d, e, f, Minor(b, f, c, e), Minor(c, d, a, f), Minor(a, e, b, d)) == 0.0
  {
  }

  lemma RowCofactors20(a: real, b: real, c: real, d: real, e: real, f: real, g: real, h: real, k: real)
    ensures Dot(g, h, k, Minor(e, k, f, h), Minor(f, g, d, k), Minor(d, h, e, g)) == 0.0
  {
  }

  lemma RowCofactors21(a: real, b: real, c: real, d: real, e: real, f: real, g: real, h: real, k: real)
    ensures Dot(g, h, k, Minor(c, h, b, k), Minor(a, k, c, g), Minor(b, g, a, h)) == 0.0
  {
  }

  lemma RowCofactors22(a: real, b: real, c: real, d: real, e: real, f: real, g: real, h: real, k: real)
    ensures Dot(g, h, k, Minor(b, f, c, e), Minor(c, d, a, f), Minor(a, e, b, d)) == Dot(a, b, c, Minor(e, k, f, h), Minor(f, g, k, d), Minor(d, h, e, g))
  {
  }

  /* The same for Adjugate(m) * m, expanding along columns. */

  lemma ColumnCofactors00(a: real, b: real, c: real, d: real, e: real, f: real, g: real, h: real, k: real)
    ensures Dot(Minor(e, k, f, h), Minor(c, h, b, k), Minor(b, f, c, e), a, d, g) == Dot(a, b, c, Minor(e, k, f, h), Minor(f, g, k, d), Minor(d, h, e, g))
  {
  }

  lemma ColumnCofactors01(a: real, b: real, c: real, d: real, e: real, f: real, g: real, h: real, k: real)
    ensures Dot(Minor(e, k, f, h), Minor(c, h, b, k), Minor(b, f, c, e), b, e, h) == 0.0
  {
  }

  lemma ColumnCofactors02(a: real, b: real, c: real, d: real, e: real, f: real, g: real, h: real, k: real)
    ensures Dot(Minor(e, k, f, h), Minor(c, h, b, k), Minor(b, f, c, e), c, f, k) == 0.0
  {
  }

  lemma ColumnCofactors10(a: real, b: real, c: real, d: real, e: real, f: real, g: real, h: real, k: real)
    ensures Dot(Minor(f, g, d, k), Minor(a, k, c, g), Minor(c, d, a, f), a, d, g) == 0.0
  {
  }

  lemma ColumnCofactors11(a: real, b: real, c: real, d: real, e: real, f: real, g: real, h: real, k: real)
    ensures Dot(Minor(f, g, d, k), Minor(a, k, c, g), Minor(c, d, a, f), b, e, h) == Dot(a, b, c, Minor(e, k, f, h), Minor(f, g, k, d), Minor(d, h, e, g))
  {
  }

  lemma ColumnCofactors12(a: real, b: real, c: real, d: real, e: real, f: real, g: real, h: real, k: real)
    ensures Dot(Minor(f, g, d, k), Minor(a, k, c, g), Minor(c, d, a, f), c, f, k) == 0.0
  {
  }

  lemma ColumnCofactors20(a: real, b: real, c: real, d: real, e: real, f: real, g: real, h: real, k: real)
    ensures Dot(Minor(d, h, e, g), Minor(b, g, a, h), Minor(a, e, b, d), a, d, g) == 0.0
  {
  }

  lemma ColumnCofactors21(a: real, b: real, c: real, d: real, e: real, f: real, g: real, h: real, k: real)
    ensures Dot(Minor(d, h, e, g), Minor(b, g, a, h), Minor(a, e, b, d), b, e, h) == 0.0
  {
  }

  lemma ColumnCofactors22(a: real, b: real, c: real, d: real, e: real, f: real, g: real, h: real, k: real)
    ensures Dot(Minor(d, h, e, g), Minor(b, g, a, h), Minor(a, e, b, d), c, f, k) == Dot(a, b, c, Minor(e, k, f, h), Minor(f, g, k, d), Minor(d, h, e, g))
  {
  }

  /** The adjugate identity: m * Adjugate(m) and Adjugate(m) * m are both the
      determinant times the identity. */
  lemma AdjugateProduct(m: Mat3)
    ensures Mul(m, Adjugate(m)) == Scale(Identity(), Determinant(m))
    ensures Mul(Adjugate(m), m) == Scale(Identity(), Determinant(m))
  {
    RowCofactors00(m.a, m.b, m.c, m.d, m.e, m.f, m.g, m.h, m.k);
    RowCofactors01(m.a, m.b, m.c, m.d, m.e, m.f, m.g, m.h, m.k);
    RowCofactors02(m.a, m.b, m.c, m.d, m.e, m.f, m.g, m.h, m.k);
    RowCofactors10(m.a, m.b, m.c, m.d, m.e, m.f, m.g, m.h, m.k);
    RowCofactors11(m.a, m.b, m.c, m.d, m.e, m.f, m.g, m.h, m.k);
    RowCofactors12(m.a, m.b, m.c, m.d, m.e, m.f, m.g, m.h, m.k);
    RowCofactors20(m.a, m.b, m.c, m.d, m.e, m.f, m.g, m.h, m.k);
    RowCofactors21(m.a, m.b, m.c, m.d, m.e, m.f, m.g, m.h, m.k);
    RowCofactors22(m.a, m.b, m.c, m.d, m.e, m.f, m.g, m.h, m.k);
    ColumnCofactors00(m.a, m.b, m.c, m.d, m.e, m.f, m.g, m.h, m.k);
    ColumnCofactors01(m.a, m.b, m.c, m.d, m.e, m.f, m.g, m.h, m.k);
    ColumnCofactors02(m.a, m.b, m.c, m.d, m.e, m.f, m.g, m.h, m.k);
    ColumnCofactors10(m.a, m.b, m.c, m.d, m.e, m.f, m.g, m.h, m.k);
    ColumnCofactors11(m.a, m.b, m.c, m.d, m.e, m.f, m.g, m.h, m.k);
    ColumnCofactors12(m.a, m.b, m.c, m.d, m.e, m.f, m.g, m.h, m.k);
    ColumnCofactors20(m.a, m.b, m.c, m.d, m.e, m.f, m.g, m.h, m.k);
    ColumnCofactors21(m.a, m.b, m.c, m.d, m.e, m.f, m.g, m.h, m.k);
    ColumnCofactors22(m.a, m.b, m.c, m.d, m.e, m.f, m.g, m.h, m.k);
    TimesUnit(Determinant(m));
  }

  /** The adjugate is an inverse exactly when the determinant is one. */
  lemma AdjugateInverseIff(m: Mat3)
    ensures Mul(m, Adjugate(m)) == Identity() <==> Determinant(m) == 1.0
    ensures Mul(Adjugate(m), m) == Identity() <==> Determinant(m) == 1.0
  {
    AdjugateProduct(m);
    TimesUnit(Determinant(m));
  }

  /** The diagonal matrix 2I has determinant 8, so its product with its adjugate is
      not the identity. */
  lemma AdjugateIsNotInverse()
    ensures var m := Mat3(2.0, 0.0, 0.0, 0.0, 2.0, 0.0, 0.0, 0.0, 2.0);
      Determinant(m) == 8.0 && Mul(m, Adjugate(m)) != Identity()
  {
    var m := Mat3(2.0, 0.0, 0.0, 0.0, 2.0, 0.0, 0.0, 0.0, 2.0);
    assert Determinant(m) == 8.0 by {
      assert Times(2.0, 2.0) == 4.0 && Times(2.0, 4.0) == 8.0;
      TimesUnit(2.0); TimesUnit(4.0); TimesUnit(0.0);
    }
    AdjugateInverseIff(m);
  }

  /** Dividing the adjugate by the determinant gives a two-sided inverse. */
  lemma InvertedIsInverse(m: Mat3)
    requires Determinant(m) != 0.0
    ensures Mul(m, Inverted(m)) == Identity()
    ensures Mul(Inverted(m), m) == Identity()
  {
    var adj, r := Adjugate(m), InverseDeterminant(m);
    RowCofactors00(m.a, m.b, m.c, m.d, m.e, m.f, m.g, m.h, m.k);
    RowCofactors01(m.a, m.b, m.c, m.d, m.e, m.f, m.g, m.h, m.k);
    RowCofactors02(m.a, m.b, m.c, m.d, m.e, m.f, m.g, m.h, m.k);
    RowCofactors10(m.a, m.b, m.c, m.d, m.e, m.f, m.g, m.h, m.k);
    RowCofactors11(m.a, m.b, m.c, m.d, m.e, m.f, m.g, m.h, m.k);
    RowCofactors12(m.a, m.b, m.c, m.d, m.e, m.f, m.g, m.h, m.k);
    RowCofactors20(m.a, m.b, m.c, m.d, m.e, m.f, m.g, m.h, m.k);
    RowCofactors21(m.a, m.b, m.c, m.d, m.e, m.f, m.g, m.h, m.k);
    RowCofactors22(m.a, m.b, m.c, m.d, m.e, m.f, m.g, m.h, m.k);
    ColumnCofactors00(m.a, m.b, m.c, m.d, m.e, m.f, m.g, m.h, m.k);
    ColumnCofactors01(m.a, m.b, m.c, m.d, m.e, m.f, m.g, m.h, m.k);
    ColumnCofactors02(m.a, m.b, m.c, m.d, m.e, m.f, m.g, m.h, m.k);
    ColumnCofactors10(m.a, m.b, m.c, m.d, m.e, m.f, m.g, m.h, m.k);
    ColumnCofactors11(m.a, m.b, m.c, m.d, m.e, m.f, m.g, m.h, m.k);
    ColumnCofactors12(m.a, m.b, m.c, m.d, m.e, m.f, m.g, m.h, m.k);
    ColumnCofactors20(m.a, m.b, m.c, m.d, m.e, m.f, m.g, m.h, m.k);
    ColumnCofactors21(m.a, m.b, m.c, m.d, m.e, m.f, m.g, m.h, m.k);
    ColumnCofactors22(m.a, m.b, m.c, m.d, m.e, m.f, m.g, m.h, m.k);
    DotScaled(m.a, m.b, m.c, adj.a, adj.d, adj.g, r);
    DotScaled(m.a, m.b, m.c, adj.b, adj.e, adj.h, r);
    DotScaled(m.a, m.b, m.c, adj.c, adj.f, adj.k, r);
    DotScaled(m.d, m.e, m.f, adj.a, adj.d, adj.g, r);
    DotScaled(m.d, m.e, m.f, adj.b, adj.e, adj.h, r);
    DotScaled(m.d, m.e, m.f, adj.c, adj.f, adj.k, r);
    DotScaled(m.g, m.h, m.k, adj.a, adj.d, adj.g, r);
    DotScaled(m.g, m.h, m.k, adj.b, adj.e, adj.h, r);
    DotScaled(m.g, m.h, m.k, adj.c, adj.f, adj.k, r);
    DotScaled(adj.a, adj.b, adj.c, m.a, m.d, m.g, r);
    DotScaled(adj.a, adj.b, adj.c, m.b, m.e, m.h, r);
    DotScaled(adj.a, adj.b, adj.c, m.c, m.f, m.k, r);
    DotScaled(adj.d, adj.e, adj.f, m.a, m.d, m.g, r);
    DotScaled(adj.d, adj.e, adj.f, m.b, m.e, m.h, r);
    DotScaled(adj.d, adj.e, adj.f, m.c, m.f, m.k, r);
    DotScaled(adj.g, adj.h, adj.k, m.a, m.d, m.g, r);
    DotScaled(adj.g, adj.h, adj.k, m.b, m.e, m.h, r);
    DotScaled(adj.g, adj.h, adj.k, m.c, m.f, m.k, r);
    TimesUnit(r);
  }

  /** The identity maps every point to itself. */
  lemma ApplyIdentity(v: Vec)
    ensures Apply(Identity(), v) == v
  {
  }

  /** The cofactor expansion along the first row, on plain products. */
  function CofactorExpansion(a: real, b: real, c: real, d: real, e: real, f: real, g: real, h: real, k: real): real
  {
    a * (e * k - f * h) + b * (f * g - d * k) + c * (d * h - e * g)
  }

  /** The determinant is the cofactor expansion of its nine entries. */
  lemma DeterminantExpanded(m: Mat3)
    ensures Determinant(m) == CofactorExpansion(m.a, m.b, m.c, m.d, m.e, m.f, m.g, m.h, m.k)
  {
  }

  /** The product rule det(MN) = det(M) det(N), as a polynomial identity in eighteen entries. */
  lemma ProductRule(a: real, b: real, c: real, d: real, e: real, f: real, g: real, h: real, k: real,
                    p: real, q: real, r: real, s: real, t: real, u: real, v: real, w: real, x: real)
    ensures CofactorExpansion(a * p + b * s + c * v, a * q + b * t + c * w, a * r + b * u + c * x,
                              d * p + e * s + f * v, d * q + e * t + f * w, d * r + e * u + f * x,
                              g * p + h * s + k * v, g * q + h * t + k * w, g * r + h * u + k * x)
            == Times(CofactorExpansion(a, b, c, d, e, f, g, h, k), CofactorExpansion(p, q, r, s, t, u, v, w, x))
  {
  }

  /** Each entry of a product is the dot product of a row of the left factor with a column of the right. */
  lemma MulExpanded(m: Mat3, n: Mat3)
    ensures Mul(m, n).a == m.a * n.a + m.b * n.d + m.c * n.g
    ensures Mul(m, n).b == m.a * n.b + m.b * n.e + m.c * n.h
    ensures Mul(m, n).c == m.a * n.c + m.b * n.f + m.c * n.k
    ensures Mul(m, n).d == m.d * n.a + m.e * n.d + m.f * n.g
    ensures Mul(m, n).e == m.d * n.b + m.e * n.e + m.f * n.h
    ensures Mul(m, n).f == m.d * n.c + m.e * n.f + m.f * n.k
    ensures Mul(m, n).g == m.g * n.a + m.h * n.d + m.k * n.g
    ensures Mul(m, n).h == m.g * n.b + m.h * n.e + m.k * n.h
    ensures Mul(m, n).k == m.g * n.c + m.h * n.f + m.k * n.k
  {
  }

  /** The determinant of a product, written out entry by entry. */
  lemma ProductExpanded(m: Mat3, n: Mat3)
    ensures Determinant(Mul(m, n)) == CofactorExpansion(m.a * n.a + m.b * n.d + m.c * n.g, m.a * n.b + m.b * n.e + m.c * n.h, m.a * n.c + m.b * n.f + m.c * n.k,
                              m.d * n.a + m.e * n.d + m.f * n.g, m.d * n.b + m.e * n.e + m.f * n.h, m.d * n.c + m.e * n.f + m.f * n.k,
                              m.g * n.a + m.h * n.d + m.k * n.g, m.g * n.b + m.h * n.e + m.k * n.h, m.g * n.c + m.h * n.f + m.k * n.k)
  {
    MulExpanded(m, n);
    DeterminantExpanded(Mul(m, n));
  }

  /** The product rule applied to the entries of two matrices. */
  lemma ExpandedProductRule(m: Mat3, n: Mat3)
    ensures CofactorExpansion(m.a * n.a + m.b * n.d + m.c * n.g, m.a * n.b + m.b * n.e + m.c * n.h, m.a * n.c + m.b * n.f + m.c * n.k,
                              m.d * n.a + m.e * n.d + m.f * n.g, m.d * n.b + m.e * n.e + m.f * n.h, m.d * n.c + m.e * n.f + m.f * n.k,
                              m.g * n.a + m.h * n.d + m.k * n.g, m.g * n.b + m.h * n.e + m.k * n.h, m.g * n.c + m.h * n.f + m.k * n.k)
            == Times(CofactorExpansion(m.a, m.b, m.c, m.d, m.e, m.f, m.g, m.h, m.k),
                     CofactorExpansion(n.a, n.b, n.c, n.d, n.e, n.f, n.g, n.h, n.k))
  {
    ProductRule(m.a, m.b, m.c, m.d, m.e, m.f, m.g, m.h, m.k, n.a, n.b, n.c, n.d, n.e, n.f, n.g, n.h, n.k);
  }

  /** The determinant is multiplicative: det(MN) = det(M) det(N). */
  lemma DeterminantOfProduct(m: Mat3, n: Mat3)
    ensures Determinant(Mul(m, n)) == Times(Determinant(m), Determinant(n))
  {
    ProductExpanded(m, n);
    ExpandedProductRule(m, n);
    DeterminantExpanded(m);
    DeterminantExpanded(n);
  }

  /** A product with a singular factor is singular. */
  lemma SingularProduct(m: Mat3, n: Mat3)
    requires Determinant(m) == 0.0
    ensures Determinant(Mul(m, n)) == 0.0 && Determinant(Mul(n, m)) == 0.0
  {
    DeterminantOfProduct(m, n);
    DeterminantOfProduct(n, m);
    TimesUnit(Determinant(n));
  }

  /** A singular matrix is not the identity. */
  lemma SingularIsNotIdentity(p: Mat3)
    requires Determinant(p) == 0.0
    ensures p != Identity()
  {
    DeterminantOfIdentity();
  }

  /** A matrix whose determinant is zero has no inverse on either side: no product with it is the identity. */
  lemma SingularHasNoInverse(m: Mat3, n: Mat3)
    requires Determinant(m) == 0.0
    ensures Mul(m, n) != Identity() && Mul(n, m) != Identity()
  {
    SingularProduct(m, n);
    SingularIsNotIdentity(Mul(m, n));
    SingularIsNotIdentity(Mul(n, m));
  }

  /** A singular matrix has no left and no right inverse among all matrices. */
  lemma SingularHasNoInverseAtAll(m: Mat3)
    requires Determinant(m) == 0.0
    ensures forall n :: Mul(m, n) != Identity()
    ensures forall n :: Mul(n, m) != Identity()
  {
    forall n
      ensures Mul(m, n) != Identity() && Mul(n, m) != Identity()
    {
      SingularHasNoInverse(m, n);
    }
  }
}
