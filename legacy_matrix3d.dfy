/** com.alegria2d.math.Matrix3D, the older copy of the matrix class. Everything but the
    getters works as in CoreMatrix3D; the getter `k()` reads row 3, outside the 3x3
    array, so it always throws, and so do the determinant and the inverse, which call it. */
module LegacyMatrix3D {
  import opened Wrappers
  import opened Vectors
  import opened Matrices

  /** The determinant as `getDeterminant()` evaluates it from the results of the nine
      getters: the getters run left to right (a, e, k, f, h, b, g, d, c by first use)
      and the first one that throws ends the evaluation. */
  function DeterminantOf(a: Result<real>, b: Result<real>, c: Result<real>,
                         d: Result<real>, e: Result<real>, f: Result<real>,
                         g: Result<real>, h: Result<real>, k: Result<real>): (r: Result<real>)
    ensures r.Success? <==> a.Success? && b.Success? && c.Success? && d.Success? && e.Success? &&
                            f.Success? && g.Success? && h.Success? && k.Success?
    ensures a.Success? && e.Success? && k.Failure? ==> r == Failure(k.error)
    ensures r.Success? ==>
      r.value == Determinant(Mat3(a.value, b.value, c.value, d.value, e.value, f.value, g.value, h.value, k.value))
  {
    var va :- a; var ve :- e; var vk :- k; var vf :- f; var vh :- h;
    var vb :- b; var vg :- g; var vd :- d; var vc :- c;
    Success(va * (ve * vk - vf * vh) +
            vb * (vf * vg - vk * vd) +
            vc * (vd * vh - ve * vg))
  }

  /** The adjugate as `inverse()` evaluates it from the results of the nine getters,
      entry by entry in row-major order (e, k, f, h, c, b, g, d, a by first use); the
      first getter that throws ends the evaluation. Each entry is the 2x2 determinant
      x*y - z*w of four getters. */
  function AdjugateOf(a: Result<real>, b: Result<real>, c: Result<real>,
                      d: Result<real>, e: Result<real>, f: Result<real>,
                      g: Result<real>, h: Result<real>, k: Result<real>): (r: Result<Mat3>)
    ensures r.Success? <==> a.Success? && b.Success? && c.Success? && d.Success? && e.Success? &&
                            f.Success? && g.Success? && h.Success? && k.Success?
    ensures e.Success? && k.Failure? ==> r == Failure(k.error)
    ensures r.Success? ==>
      r.value == Adjugate(Mat3(a.value, b.value, c.value, d.value, e.value, f.value, g.value, h.value, k.value))
  {
    var ve :- e; var vk :- k; var vf :- f; var vh :- h; var vc :- c;
    var vb :- b; var vg :- g; var vd :- d; var va :- a;
    Success(Mat3(Minor(ve, vk, vf, vh), Minor(vc, vh, vb, vk), Minor(vb, vf, vc, ve),
                 Minor(vf, vg, vd, vk), Minor(va, vk, vc, vg), Minor(vc, vd, va, vf),
                 Minor(vd, vh, ve, vg), Minor(vb, vg, va, vh), Minor(va, ve, vb, vd)))
  }

  /** `getDeterminant() != 0` on the outcome of the call: the comparison is made only
      when the determinant was computed. */
  function IsNonZero(det: Result<real>): (r: Result<bool>)
    ensures det.Failure? ==> r == Failure(det.error)
    ensures det.Success? ==> r == Success(det.value != 0.0)
  {
    match det
    case Success(value) => Success(value != 0.0)
    case Failure(error) => Failure(error)
  }

  class Matrix3D {
    var A: array2<real>

    /** The array always has three rows of three columns. */
    ghost predicate Valid()
      reads this
    {
      A.Length0 == 3 && A.Length1 == 3
    }

    /** The matrix this object currently holds. */
    function Value(): Mat3
      requires Valid()
      reads this, A
    {
      Contents(A)
    }

    /** The private no-argument constructor followed by `matrix.A = B`, the way the
        class installs an array it has filled itself. */
    constructor Install(B: array2<real>)
      requires B.Length0 == 3 && B.Length1 == 3
      ensures Valid() && A == B
    {
      A := B;
    }

    /** `Matrix3D(float[][] matrix)` with at least three rows of at least three
        entries: copies the top-left 3x3 block. */
    constructor OfRows(matrix: seq<seq<real>>)
      requires |matrix| >= 3 && forall i | 0 <= i < 3 :: |matrix[i]| >= 3
      ensures Valid() && fresh(A) && Value() == Matrices.OfRows(matrix)
    {
      var B := new real[3, 3];
      for i := 0 to 3
        invariant forall p, q | InRange(p, q) && p < i :: B[p, q] == matrix[p][q]
      {
        for j := 0 to 3
          invariant forall p, q | InRange(p, q) && (p < i || (p == i && q < j)) :: B[p, q] == matrix[p][q]
        {
          B[i, j] := matrix[i][j];
        }
      }
      A := B;
      Extensionality(Contents(B), Matrices.OfRows(matrix));
    }

    /** `Matrix3D(Matrix3D other)`: `this(other.A)`, a copy that shares nothing with
        `other`. */
    constructor Copy(other: Matrix3D)
      requires other.Valid()
      ensures Valid() && fresh(A) && Value() == other.Value()
    {
      var B := new real[3, 3];
      for i := 0 to 3
        invariant forall p, q | InRange(p, q) && p < i :: B[p, q] == other.A[p, q]
      {
        for j := 0 to 3
          invariant forall p, q | InRange(p, q) && (p < i || (p == i && q < j)) :: B[p, q] == other.A[p, q]
        {
          B[i, j] := other.A[i, j];
        }
      }
      A := B;
      Extensionality(Contents(B), other.Value());
    }

    /** `Matrix3D(float[][] matrix)`: a missing row or a short row makes the array
        access throw. */
    static method FromRows(matrix: seq<seq<real>>) returns (r: Result<Matrix3D>)
      ensures r.Success? <==> |matrix| >= 3 && forall i | 0 <= i < 3 :: |matrix[i]| >= 3
      ensures r.Failure? ==> r.error == IndexOutOfBounds
      ensures r.Success? ==> fresh(r.value) && fresh(r.value.A) && r.value.Valid()
      ensures r.Success? ==> r.value.Value() == Matrices.OfRows(matrix)
    {
      if |matrix| < 3 || exists i | 0 <= i < 3 :: |matrix[i]| < 3 {
        return Failure(IndexOutOfBounds);
      }
      var m := new Matrix3D.OfRows(matrix);
      r := Success(m);
    }

    /** `Matrix3D(float... values)`: fewer than nine values throw; otherwise value
        `index` is stored in row index / 3, column index % 3. */
    static method FromValues(values: seq<real>) returns (r: Result<Matrix3D>)
      ensures r.Success? <==> |values| >= 9
      ensures r.Failure? ==> r.error == IllegalArgument
      ensures r.Success? ==> fresh(r.value) && fresh(r.value.A) && r.value.Valid()
      ensures r.Success? ==> r.value.Value() == OfSeq(values)
    {
      if |values| < 9 {
        return Failure(IllegalArgument);
      }
      var B := new real[3, 3];
      for index := 0 to 9
        invariant forall idx | 0 <= idx < index :: B[idx / 3, idx % 3] == values[idx]
      {
        var i := index / 3;
        var j := index % 3;
        B[i, j] := values[index];
      }
      var m := new Matrix3D.Install(B);
      assert forall idx | 0 <= idx < 9 :: Contents(B).At(idx / 3, idx % 3) == values[idx];
      Extensionality(Contents(B), OfSeq(values));
      r := Success(m);
    }

    /** `newIdentity()`. */
    static method NewIdentity() returns (r: Matrix3D)
      ensures fresh(r) && fresh(r.A) && r.Valid() && r.Value() == Identity()
    {
      var made := FromValues([1.0, 0.0, 0.0, 0.0, 1.0, 0.0, 0.0, 0.0, 1.0]);
      r := made.value;
    }

    /** `get(row, col)`: the array access throws outside 0..2. */
    function Get(row: int, col: int): (r: Result<real>)
      requires Valid()
      reads this, A
      ensures r.Success? <==> InRange(row, col)
      ensures r.Success? ==> r.value == Value().At(row, col)
      ensures r.Failure? ==> r.error == IndexOutOfBounds
    {
      if InRange(row, col) then Success(A[row, col]) else Failure(IndexOutOfBounds)
    }

    /** `set(row, col, value)`: changes exactly one entry and returns this matrix; a
        bad index throws before anything is stored. */
    method Set(row: int, col: int, value: real) returns (r: Result<Matrix3D>)
      requires Valid()
      modifies A
      ensures r.Success? <==> InRange(row, col)
      ensures r.Success? ==> r.value == this && Value() == With(old(Value()), row, col, value)
      ensures r.Failure? ==> r.error == IndexOutOfBounds && Value() == old(Value())
    {
      if !InRange(row, col) {
        return Failure(IndexOutOfBounds);
      }
      A[row, col] := value;
      Extensionality(Value(), With(old(Value()), row, col, value));
      r := Success(this);
    }

    /** `a()` .. `h()`: the entries named row by row. */
    function a(): (r: real) requires Valid() reads this, A ensures Get(0, 0) == Success(r) { A[0, 0] }
    function b(): (r: real) requires Valid() reads this, A ensures Get(0, 1) == Success(r) { A[0, 1] }
    function c(): (r: real) requires Valid() reads this, A ensures Get(0, 2) == Success(r) { A[0, 2] }
    function d(): (r: real) requires Valid() reads this, A ensures Get(1, 0) == Success(r) { A[1, 0] }
    function e(): (r: real) requires Valid() reads this, A ensures Get(1, 1) == Success(r) { A[1, 1] }
    function f(): (r: real) requires Valid() reads this, A ensures Get(1, 2) == Success(r) { A[1, 2] }
    function g(): (r: real) requires Valid() reads this, A ensures Get(2, 0) == Success(r) { A[2, 0] }
    function h(): (r: real) requires Valid() reads this, A ensures Get(2, 1) == Success(r) { A[2, 1] }

    /** `clone()`: an equal matrix that shares no array with this one. */
    method Clone() returns (r: Matrix3D)
      requires Valid()
      ensures fresh(r) && fresh(r.A) && r.Valid() && r.Value() == Value()
    {
      r := new Matrix3D.Copy(this);
    }

    /** `plusMe(other)`: adds entry by entry in place (`other` may be this matrix). */
    method PlusMe(other: Matrix3D) returns (r: Matrix3D)
      requires Valid() && other.Valid()
      modifies A
      ensures r == this && Value() == Matrices.Plus(old(Value()), old(other.Value()))
    {
      for i := 0 to 3
        invariant forall p, q | InRange(p, q) ::
          A[p, q] == if p < i then old(A[p, q]) + old(other.A[p, q]) else old(A[p, q])
      {
        for j := 0 to 3
          invariant forall p, q | InRange(p, q) ::
            A[p, q] == if p < i || (p == i && q < j) then old(A[p, q]) + old(other.A[p, q]) else old(A[p, q])
        {
          A[i, j] := A[i, j] + other.A[i, j];
        }
      }
      Extensionality(Value(), Matrices.Plus(old(Value()), old(other.Value())));
      r := this;
    }

    /** `plus(other)`: the sum in a new matrix; both operands are unchanged. */
    method Plus(other: Matrix3D) returns (r: Matrix3D)
      requires Valid() && other.Valid()
      ensures fresh(r) && fresh(r.A) && r.Valid() && r.Value() == Matrices.Plus(Value(), other.Value())
    {
      r := Clone();
      r := r.PlusMe(other);
    }

    /** `minusMe(other)`: subtracts entry by entry in place. */
    method MinusMe(other: Matrix3D) returns (r: Matrix3D)
      requires Valid() && other.Valid()
      modifies A
      ensures r == this && Value() == Matrices.Minus(old(Value()), old(other.Value()))
    {
      for i := 0 to 3
        invariant forall p, q | InRange(p, q) ::
          A[p, q] == if p < i then old(A[p, q]) - old(other.A[p, q]) else old(A[p, q])
      {
        for j := 0 to 3
          invariant forall p, q | InRange(p, q) ::
            A[p, q] == if p < i || (p == i && q < j) then old(A[p, q]) - old(other.A[p, q]) else old(A[p, q])
        {
          A[i, j] := A[i, j] - other.A[i, j];
        }
      }
      Extensionality(Value(), Matrices.Minus(old(Value()), old(other.Value())));
      r := this;
    }

    /** `minus(other)`: the difference in a new matrix. */
    method Minus(other: Matrix3D) returns (r: Matrix3D)
      requires Valid() && other.Valid()
      ensures fresh(r) && fresh(r.A) && r.Valid() && r.Value() == Matrices.Minus(Value(), other.Value())
    {
      r := Clone();
      r := r.MinusMe(other);
    }

    /** `multiply(other)`: C[i][j] accumulates A[i][k] * B[k][j] over k in a fresh,
        zero-filled array; both operands are unchanged. */
    method Multiply(other: Matrix3D) returns (r: Matrix3D)
      requires Valid() && other.Valid()
      ensures fresh(r) && fresh(r.A) && r.Valid() && r.Value() == Mul(Value(), other.Value())
    {
      ghost var m, n := Value(), other.Value();
      var B := other.A;
      var C := new real[3, 3]((_, _) => 0.0);
      for i := 0 to 3
        invariant forall p, q | InRange(p, q) :: C[p, q] == if p < i then Mul(m, n).At(p, q) else 0.0
      {
        for j := 0 to 3
          invariant forall p, q | InRange(p, q) ::
            C[p, q] == if p < i || (p == i && q < j) then Mul(m, n).At(p, q) else 0.0
        {
          for k := 0 to 3
            invariant forall p, q | InRange(p, q) && (p != i || q != j) ::
              C[p, q] == if p < i || (p == i && q < j) then Mul(m, n).At(p, q) else 0.0
            invariant C[i, j] == PartialProduct(m, n, i, j, k)
          {
            C[i, j] := C[i, j] + A[i, k] * B[k, j];
          }
          PartialProductComplete(m, n, i, j);
        }
      }
      r := new Matrix3D.Install(C);
      Extensionality(r.Value(), Mul(m, n));
    }

    /** `multiplyMe(other)`: installs the product array in place of `A`. */
    method MultiplyMe(other: Matrix3D) returns (r: Matrix3D)
      requires Valid() && other.Valid()
      modifies this
      ensures r == this && Valid() && fresh(A) && Value() == Mul(old(Value()), old(other.Value()))
    {
      var product := Multiply(other);
      A := product.A;
      r := this;
    }

    /** `multiply(Vector2D)`: the point (x, y, 1) transformed by the top two rows; the
        bottom row is ignored. */
    method MultiplyVector(vector: Vector2D) returns (r: Vector2D)
      requires Valid()
      ensures fresh(r) && r.Value() == Apply(Value(), vector.Value())
    {
      var x := vector.x;
      var y := vector.y;
      r := new Vector2D(x * a() + y * b() + c(), x * d() + y * e() + f());
    }

    /** `multiplyMe(scalar)`: multiplies every entry in place. */
    method MultiplyScalarMe(scalar: real) returns (r: Matrix3D)
      requires Valid()
      modifies A
      ensures r == this && Value() == Scale(old(Value()), scalar)
    {
      for i := 0 to 3
        invariant forall p, q | InRange(p, q) ::
          A[p, q] == if p < i then Times(old(A[p, q]), scalar) else old(A[p, q])
      {
        for j := 0 to 3
          invariant forall p, q | InRange(p, q) ::
            A[p, q] == if p < i || (p == i && q < j) then Times(old(A[p, q]), scalar) else old(A[p, q])
        {
          A[i, j] := A[i, j] * scalar;
        }
      }
      Extensionality(Value(), Scale(old(Value()), scalar));
      r := this;
    }

    /** `multiply(scalar)`: the scaled matrix in a new object. */
    method MultiplyScalar(scalar: real) returns (r: Matrix3D)
      requires Valid()
      ensures fresh(r) && fresh(r.A) && r.Valid() && r.Value() == Scale(Value(), scalar)
    {
      r := Clone();
      r := r.MultiplyScalarMe(scalar);
    }

    /** `k()`: reads A[3][2], one row past the end of the array, so it always throws,
        although the entry it names is A[2][2]. */
    function k(): (r: Result<real>)
      requires Valid()
      reads this, A
      ensures r == Failure(IndexOutOfBounds)
    {
      Get(3, 2)
    }

    /** `getDeterminant()`: the getter `k()` throws before anything is computed. */
    function GetDeterminant(): (r: Result<real>)
      requires Valid()
      reads this, A
      ensures r == Failure(IndexOutOfBounds)
    {
      DeterminantOf(Success(a()), Success(b()), Success(c()), Success(d()), Success(e()),
                    Success(f()), Success(g()), Success(h()), k())
    }

    /** `isInvertible()`: throws with `getDeterminant()`. */
    function IsInvertible(): (r: Result<bool>)
      requires Valid()
      reads this, A
      ensures r == Failure(IndexOutOfBounds)
    {
      IsNonZero(GetDeterminant())
    }

    /** A new matrix holding `entries`, or the exception that computing them threw. */
    static method Allocate(entries: Result<Mat3>) returns (r: Result<Matrix3D>)
      ensures entries.Failure? ==> r == Failure(entries.error)
      ensures entries.Success? ==> r.Success? && fresh(r.value) && fresh(r.value.A) && r.value.Valid()
      ensures entries.Success? ==> r.value.Value() == entries.value
    {
      if entries.Failure? {
        return Failure(entries.error);
      }
      var m := entries.value;
      var B := new real[3, 3];
      B[0, 0], B[0, 1], B[0, 2] := m.a, m.b, m.c;
      B[1, 0], B[1, 1], B[1, 2] := m.d, m.e, m.f;
      B[2, 0], B[2, 1], B[2, 2] := m.g, m.h, m.k;
      assert Contents(B) == m;
      var made := new Matrix3D.Install(B);
      r := Success(made);
    }

    /** `inverse()`: the first entry already calls `k()`, so it always throws. */
    method Inverse() returns (r: Result<Matrix3D>)
      requires Valid()
      ensures r == Failure(IndexOutOfBounds)
    {
      var adjugate := AdjugateOf(Success(a()), Success(b()), Success(c()), Success(d()), Success(e()),
                                 Success(f()), Success(g()), Success(h()), k());
      r := Allocate(adjugate);
    }

    /** Installs the array of a computed matrix, or passes on the exception and leaves
        this matrix unchanged. */
    method Adopt(computed: Result<Matrix3D>) returns (r: Result<Matrix3D>)
      requires Valid() && (computed.Success? ==> computed.value.Valid())
      modifies this
      ensures Valid()
      ensures computed.Failure? ==> r == Failure(computed.error) && A == old(A)
      ensures computed.Success? ==> r == Success(this) && A == computed.value.A
    {
      if computed.Failure? {
        return Failure(computed.error);
      }
      A := computed.value.A;
      r := Success(this);
    }

    /** `inverseMe()`: throws with `inverse()`, before `A` is reassigned. */
    method InverseMe() returns (r: Result<Matrix3D>)
      requires Valid()
      modifies this
      ensures r == Failure(IndexOutOfBounds) && A == old(A) && Value() == old(Value())
    {
      var inverse := Inverse();
      r := Adopt(inverse);
    }

    /** `transpose()`: B[i][j] = A[j][i] in a new matrix; this one is unchanged. */
    method Transpose() returns (r: Matrix3D)
      requires Valid()
      ensures fresh(r) && fresh(r.A) && r.Valid() && r.Value() == Matrices.Transpose(Value())
    {
      var B := new real[3, 3];
      for i := 0 to 3
        invariant forall p, q | InRange(p, q) && p < i :: B[p, q] == A[q, p]
      {
        for j := 0 to 3
          invariant forall p, q | InRange(p, q) && (p < i || (p == i && q < j)) :: B[p, q] == A[q, p]
        {
          B[i, j] := A[j, i];
        }
      }
      r := new Matrix3D.Install(B);
      Extensionality(r.Value(), Matrices.Transpose(Value()));
    }

    /** `transposeMe()`: installs the transposed array. */
    method TransposeMe() returns (r: Matrix3D)
      requires Valid()
      modifies this
      ensures r == this && Valid() && fresh(A) && Value() == Matrices.Transpose(old(Value()))
    {
      var transposed := Transpose();
      A := transposed.A;
      r := this;
    }

    /** `toArray()`: the array of a clone, so writing to it does not affect this matrix. */
    method ToArray() returns (r: array2<real>)
      requires Valid()
      ensures fresh(r) && r.Length0 == 3 && r.Length1 == 3 && Contents(r) == Value()
    {
      var copy := Clone();
      r := copy.A;
    }

    /** `getAt(row)`: a view of one row; rows outside 0..2 throw. */
    method GetAt(row: int) returns (r: Result<MatrixRow>)
      requires Valid()
      ensures r.Success? <==> 0 <= row < 3
      ensures r.Failure? ==> r.error == IndexOutOfBounds
      ensures r.Success? ==> fresh(r.value) && r.value.matrix == this && r.value.row == row
    {
      if row < 0 || row > 2 {
        return Failure(IndexOutOfBounds);
      }
      var view := new MatrixRow(this, row);
      r := Success(view);
    }
  }

  /** Matrix3D.MatrixRow: a view of row `row` of `matrix`. */
  class MatrixRow {
    const matrix: Matrix3D
    const row: int

    /** `MatrixRow(row)`: any row number is accepted here. */
    constructor (matrix: Matrix3D, row: int)
      ensures this.matrix == matrix && this.row == row
    {
      this.matrix := matrix;
      this.row := row;
    }

    /** `putAt(col, value)`: writes one entry of the viewed matrix and returns the value;
        a column (or row) outside 0..2 makes the array access throw before anything is
        stored. */
    method PutAt(col: int, value: real) returns (r: Result<real>)
      requires matrix.Valid()
      modifies matrix.A
      ensures r.Success? <==> InRange(row, col)
      ensures r.Success? ==> r.value == value && matrix.Value() == With(old(matrix.Value()), row, col, value)
      ensures r.Failure? ==> r.error == IndexOutOfBounds && matrix.Value() == old(matrix.Value())
    {
      if !InRange(row, col) {
        return Failure(IndexOutOfBounds);
      }
      matrix.A[row, col] := value;
      Extensionality(matrix.Value(), With(old(matrix.Value()), row, col, value));
      r := Success(value);
    }

    /** `getAt(col)`: a column outside 0..2 is rejected with IllegalArgumentException;
        a row outside 0..2 then makes the array access throw. */
    function GetAt(col: int): (r: Result<real>)
      requires matrix.Valid()
      reads matrix, matrix.A
      ensures !(0 <= col < 3) ==> r == Failure(IllegalArgument)
      ensures 0 <= col < 3 && !(0 <= row < 3) ==> r == Failure(IndexOutOfBounds)
      ensures InRange(row, col) ==> r == Success(matrix.Value().At(row, col))
    {
      if col < 0 || col > 2 then Failure(IllegalArgument)
      else if row < 0 || row > 2 then Failure(IndexOutOfBounds)
      else Success(matrix.A[row, col])
    }
  }

  /** A row view obtained through `getAt` reads and writes the entries of its matrix:
      what `putAt` stores, `getAt` and `get` read back. */
  lemma RowViewAgreesWithGet(m: Matrix3D, view: MatrixRow, col: int)
    requires m.Valid() && view.matrix == m && 0 <= view.row < 3 && 0 <= col < 3
    ensures view.GetAt(col) == m.Get(view.row, col)
  {
  }
}
