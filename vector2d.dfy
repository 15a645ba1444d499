/** com.alegria2d.math.Vector2D: a mutable (x, y) pair of floats (modelled as reals).
    The value `Vec` carries the arithmetic; the class `Vector2D` carries the in-place
    ("...Me") and copying operations of the Java class. */
module Vectors {
  import opened Wrappers

  datatype Vec = Vec(x: real, y: real) {

    function Plus(o: Vec): Vec { Vec(x + o.x, y + o.y) }

    function Minus(o: Vec): Vec { Vec(x - o.x, y - o.y) }

    function Scale(s: real): Vec { Vec(x * s, y * s) }

    function Divided(s: real): Vec
      requires s != 0.0
    {
      Vec(x / s, y / s)
    }

    function Negative(): Vec { Vec(-x, -y) }

    /** `getSizeSqr()`: never negative, and zero exactly for the zero vector. */
    function SizeSqr(): (r: real)
      ensures r >= 0.0
      ensures r == 0.0 <==> this == Vec(0.0, 0.0)
    {
      var s := x * x + y * y;
      SumOfSquares(x, y, s);
      s
    }

    /** `isZero()`. */
    predicate IsZero()
    {
      SizeSqr() == 0.0
    }

    /** `isNormal()`. */
    predicate IsNormal()
    {
      SizeSqr() == 1.0
    }

    /** The exact dot product, the local `dp` of `dot` before clamping. */
    function DotProduct(o: Vec): real { x * o.x + y * o.y }

    /** `dot(other)`: the dot product clamped to [-1, 1]. */
    function Dot(o: Vec): (r: real)
      ensures -1.0 <= r <= 1.0
      ensures -1.0 <= DotProduct(o) <= 1.0 ==> r == DotProduct(o)
      ensures DotProduct(o) > 1.0 ==> r == 1.0
      ensures DotProduct(o) < -1.0 ==> r == -1.0
    {
      var dp := DotProduct(o);
      if dp >= 1.0 then 1.0 else if dp <= -1.0 then -1.0 else dp
    }

    /** `getPerpendicular()`: orthogonal to this vector and just as long. */
    function Perpendicular(): (r: Vec)
      ensures DotProduct(r) == 0.0
      ensures r.SizeSqr() == SizeSqr()
    {
      Vec(-y, x)
    }

    /** `compareTo(other)`: -1, 0 or 1 according to the squared sizes. */
    function CompareTo(o: Vec): (r: int)
      ensures r == -1 || r == 0 || r == 1
      ensures r < 0 <==> SizeSqr() < o.SizeSqr()
      ensures r == 0 <==> SizeSqr() == o.SizeSqr()
    {
      if SizeSqr() < o.SizeSqr() then -1
      else if SizeSqr() > o.SizeSqr() then 1
      else 0
    }

    /** `getAt(index)`: 0 is x, 1 is y, anything else throws. */
    function GetAt(index: int): (r: Result<real>)
      ensures r.Success? <==> index == 0 || index == 1
      ensures index == 0 ==> r == Success(x)
      ensures index == 1 ==> r == Success(y)
      ensures r.Failure? ==> r.error == IndexOutOfBounds
    {
      if index == 0 then Success(x)
      else if index == 1 then Success(y)
      else Failure(IndexOutOfBounds)
    }

    /** The vector after a successful `putAt(index, value)`. */
    function With(index: int, value: real): (r: Vec)
      requires index == 0 || index == 1
      ensures r.GetAt(index) == Success(value)
      ensures r.GetAt(1 - index) == GetAt(1 - index)
    {
      if index == 0 then Vec(value, y) else Vec(x, value)
    }
  }

  /** A product of two positive reals is positive. The product is passed as `p` so that
      callers can name it. */
  lemma ProductPositive(a: real, b: real, p: real)
    requires a > 0.0 && b > 0.0 && p == a * b
    ensures p > 0.0
  {
  }

  /** The square of a non-zero real is positive. */
  lemma SquarePositive(a: real, s: real)
    requires a != 0.0 && s == a * a
    ensures s > 0.0
  {
    if a > 0.0 {
      ProductPositive(a, a, s);
    } else {
      ProductPositive(-a, -a, s);
    }
  }

  /** A sum of two squares is never negative, and zero only when both are zero. */
  lemma SumOfSquares(x: real, y: real, s: real)
    requires s == x * x + y * y
    ensures s >= 0.0
    ensures s == 0.0 <==> x == 0.0 && y == 0.0
  {
    var xx, yy := x * x, y * y;
    if x != 0.0 {
      SquarePositive(x, xx);
    }
    if y != 0.0 {
      SquarePositive(y, yy);
    }
  }

  /** Adding and then subtracting the same vector gives the original back. */
  lemma PlusMinusInverse(a: Vec, b: Vec)
    ensures a.Plus(b).Minus(b) == a
    ensures a.Minus(b).Plus(b) == a
  {
  }

  /** Subtracting is adding the negative; negating twice is the identity. */
  lemma MinusIsPlusNegative(a: Vec, b: Vec)
    ensures a.Minus(b) == a.Plus(b.Negative())
    ensures a.Negative().Negative() == a
    ensures a.Negative() == a.Scale(-1.0)
  {
  }

  /** Dividing undoes multiplying by the same non-zero scalar. */
  lemma ScaleDividedInverse(a: Vec, s: real)
    requires s != 0.0
    ensures a.Scale(s).Divided(s) == a
    ensures a.Divided(s).Scale(s) == a
  {
  }

  /** Scaling multiplies the squared size by the square of the factor. */
  lemma {:induction false} ScaleSizeSqr(a: Vec, s: real)
    ensures a.Scale(s).SizeSqr() == s * s * a.SizeSqr()
  {
    calc {
      a.Scale(s).SizeSqr();
      (a.x * s) * (a.x * s) + (a.y * s) * (a.y * s);
      s * s * (a.x * a.x + a.y * a.y);
    }
  }

  /** Scaling a non-zero vector by `newSize / size`, where `size` is its length, gives it
      the squared size `newSize * newSize`. */
  lemma RescaledSize(v: Vec, newSize: real, size: real)
    requires size >= 0.0 && size * size == v.SizeSqr() && !v.IsZero()
    ensures size != 0.0
    ensures v.Scale(newSize / size).SizeSqr() == newSize * newSize
  {
    var relation := newSize / size;
    ScaleSizeSqr(v, relation);
    assert relation * size == newSize;
    calc {
      relation * relation * (size * size);
      (relation * size) * (relation * size);
    }
  }

  /** Dividing a non-zero vector by its length gives a normal vector. */
  lemma DividedBySizeIsNormal(v: Vec, size: real)
    requires size >= 0.0 && size * size == v.SizeSqr() && !v.IsZero()
    ensures size != 0.0
    ensures v.Divided(size) == v.Scale(1.0 / size)
    ensures v.Divided(size).IsNormal()
  {
    RescaledSize(v, 1.0, size);
  }

  /** `compareTo` is antisymmetric and transitive: an ordering by squared size. */
  lemma CompareToOrdering(a: Vec, b: Vec, c: Vec)
    ensures a.CompareTo(b) == -b.CompareTo(a)
    ensures a.CompareTo(b) <= 0 && b.CompareTo(c) <= 0 ==> a.CompareTo(c) <= 0
    ensures a.CompareTo(a) == 0
  {
  }

  /** The dot product (clamped or not) does not depend on the order of its arguments. */
  lemma DotSymmetric(a: Vec, b: Vec)
    ensures a.DotProduct(b) == b.DotProduct(a)
    ensures a.Dot(b) == b.Dot(a)
  {
  }

  /** Cauchy-Schwarz in the plane: for two normal vectors the clamp of `dot` never bites. */
  lemma NormalDotUnclamped(a: Vec, b: Vec)
    requires a.IsNormal() && b.IsNormal()
    ensures -1.0 <= a.DotProduct(b) <= 1.0
    ensures a.Dot(b) == a.DotProduct(b)
  {
    var dp := a.DotProduct(b);
    var cross := a.x * b.y - a.y * b.x;
    assert dp * dp + cross * cross == a.SizeSqr() * b.SizeSqr();
    assert dp * dp <= 1.0;
  }

  /** Four quarter turns bring a vector back. */
  lemma PerpendicularFourTimes(a: Vec)
    ensures a.Perpendicular().Perpendicular() == a.Negative()
    ensures a.Perpendicular().Perpendicular().Perpendicular().Perpendicular() == a
  {
  }

  /** `putAt` followed by `getAt` on the same index reads the value back, the other
      component is kept, and writing back what is there changes nothing. */
  lemma PutThenGet(a: Vec, index: int, value: real)
    requires index == 0 || index == 1
    ensures a.With(index, value).GetAt(index) == Success(value)
    ensures a.With(index, value).GetAt(1 - index) == a.GetAt(1 - index)
    ensures a.With(index, a.GetAt(index).value) == a
  {
  }

  class Vector2D {
    var x: real
    var y: real

    /** The value this vector currently holds. */
    function Value(): Vec
      reads this
    {
      Vec(x, y)
    }

    /** `Vector2D()`: the zero vector. */
    constructor Zero()
      ensures Value() == Vec(0.0, 0.0)
    {
      x, y := 0.0, 0.0;
    }

    /** `Vector2D(float x, float y)`. */
    constructor (x: real, y: real)
      ensures Value() == Vec(x, y)
    {
      this.x, this.y := x, y;
    }

    /** `Vector2D(Vector2D other)`: a copy. */
    constructor Copy(other: Vector2D)
      ensures Value() == other.Value()
    {
      x, y := other.x, other.y;
    }

    /** `set(newX, newY)`. */
    method Set(newX: real, newY: real) returns (r: Vector2D)
      modifies this
      ensures r == this && Value() == Vec(newX, newY)
    {
      x, y := newX, newY;
      r := this;
    }

    /** `set(Vector2D other)`. */
    method SetFrom(other: Vector2D) returns (r: Vector2D)
      modifies this
      ensures r == this && Value() == old(other.Value())
    {
      r := Set(other.x, other.y);
    }

    /** `clone()`: an independent copy. */
    method Clone() returns (r: Vector2D)
      ensures fresh(r) && r.Value() == Value()
    {
      r := new Vector2D.Copy(this);
    }

    /** `plusMe(other)`: adds in place (`other` may be this vector itself). */
    method PlusMe(other: Vector2D) returns (r: Vector2D)
      modifies this
      ensures r == this && Value() == old(Value()).Plus(old(other.Value()))
    {
      x := x + other.x;
      y := y + other.y;
      r := this;
    }

    /** `plus(other)`: the sum in a new vector; this vector is unchanged. */
    method Plus(other: Vector2D) returns (r: Vector2D)
      ensures fresh(r) && r.Value() == Value().Plus(other.Value())
    {
      r := Clone();
      r := r.PlusMe(other);
    }

    /** `minusMe(other)`. */
    method MinusMe(other: Vector2D) returns (r: Vector2D)
      modifies this
      ensures r == this && Value() == old(Value()).Minus(old(other.Value()))
    {
      x := x - other.x;
      y := y - other.y;
      r := this;
    }

    /** `minus(other)`. */
    method Minus(other: Vector2D) returns (r: Vector2D)
      ensures fresh(r) && r.Value() == Value().Minus(other.Value())
    {
      r := Clone();
      r := r.MinusMe(other);
    }

    /** `multiplyMe(scalar)`. */
    method MultiplyMe(scalar: real) returns (r: Vector2D)
      modifies this
      ensures r == this && Value() == old(Value()).Scale(scalar)
    {
      x := x * scalar;
      y := y * scalar;
      r := this;
    }

    /** `multiply(scalar)`. */
    method Multiply(scalar: real) returns (r: Vector2D)
      ensures fresh(r) && r.Value() == Value().Scale(scalar)
    {
      r := Clone();
      r := r.MultiplyMe(scalar);
    }

    /** `divMe(scalar)`: throws DivideByZeroException for 0 before touching x or y. */
    method DivMe(scalar: real) returns (r: Result<Vector2D>)
      modifies this
      ensures scalar == 0.0 ==> r == Failure(DivideByZero) && Value() == old(Value())
      ensures scalar != 0.0 ==> r == Success(this) && Value() == old(Value()).Divided(scalar)
    {
      if scalar == 0.0 {
        return Failure(DivideByZero);
      }
      x := x / scalar;
      y := y / scalar;
      r := Success(this);
    }

    /** `div(scalar)`: the quotient in a new vector; this vector is unchanged. */
    method Div(scalar: real) returns (r: Result<Vector2D>)
      ensures scalar == 0.0 ==> r == Failure(DivideByZero)
      ensures scalar != 0.0 ==> r.Success? && fresh(r.value) && r.value.Value() == Value().Divided(scalar)
    {
      var copy := Clone();
      r := copy.DivMe(scalar);
    }

    /** `negativeMe()`. */
    method NegativeMe() returns (r: Vector2D)
      modifies this
      ensures r == this && Value() == old(Value()).Negative()
    {
      x := -x;
      y := -y;
      r := this;
    }

    /** `negative()`. */
    method Negative() returns (r: Vector2D)
      ensures fresh(r) && r.Value() == Value().Negative()
    {
      r := Clone();
      r := r.NegativeMe();
    }

    /** `getPerpendicular()`: a new vector (-y, x). */
    method GetPerpendicular() returns (r: Vector2D)
      ensures fresh(r) && r.Value() == Value().Perpendicular()
    {
      r := new Vector2D(-y, x);
    }

    /** `putAt(index, value)`: 0 writes x, 1 writes y, anything else throws and
        changes nothing; on success it returns the value. */
    method PutAt(index: int, value: real) returns (r: Result<real>)
      modifies this
      ensures r.Success? <==> index == 0 || index == 1
      ensures r.Success? ==> r.value == value && Value() == old(Value()).With(index, value)
      ensures r.Failure? ==> r.error == IndexOutOfBounds && Value() == old(Value())
    {
      if index == 0 {
        x := value;
      } else if index == 1 {
        y := value;
      } else {
        return Failure(IndexOutOfBounds);
      }
      r := Success(value);
    }

    /** `toArray()`: a new two-element array. */
    method ToArray() returns (a: array<real>)
      ensures fresh(a) && a[..] == [x, y]
    {
      a := new real[2];
      a[0], a[1] := x, y;
    }

    /** `setSize(newSize)`. `size` stands for `getSize()`, the square root of the squared
        size. The zero vector is left unchanged; any other vector is scaled to the new size. */
    method SetSize(newSize: real, size: real) returns (r: Vector2D)
      requires size >= 0.0 && size * size == Value().SizeSqr()
      modifies this
      ensures r == this
      ensures old(Value()).IsZero() ==> Value() == old(Value())
      ensures !old(Value()).IsZero() ==> Value() == old(Value()).Scale(newSize / size)
      ensures !old(Value()).IsZero() ==> Value().SizeSqr() == newSize * newSize
    {
      if Value().IsZero() {
        return this;
      }
      RescaledSize(Value(), newSize, size);
      var relation := newSize / size;
      x := x * relation;
      y := y * relation;
      r := this;
    }

    /** `normalizeMe()`. `size` stands for the square root of the squared size. The zero
        vector and an already normal vector are left unchanged; any other vector is divided
        by its size and becomes normal. */
    method NormalizeMe(size: real) returns (r: Vector2D)
      requires size >= 0.0 && size * size == Value().SizeSqr()
      modifies this
      ensures r == this
      ensures old(Value()).IsZero() || old(Value()).IsNormal() ==> Value() == old(Value())
      ensures !old(Value()).IsZero() ==> Value().IsNormal()
    {
      var sizeSqr := Value().SizeSqr();
      if sizeSqr == 0.0 {
        return this;
      }
      if sizeSqr == 1.0 {
        return this;
      }
      DividedBySizeIsNormal(Value(), size);
      var _ := DivMe(size);
      r := this;
    }

    /** `normalize()`: a normalized copy; this vector is unchanged. */
    method Normalize(size: real) returns (r: Vector2D)
      requires size >= 0.0 && size * size == Value().SizeSqr()
      ensures fresh(r)
      ensures Value().IsZero() || Value().IsNormal() ==> r.Value() == Value()
      ensures !Value().IsZero() ==> r.Value().IsNormal()
    {
      var copy := Clone();
      ghost var v := copy.Value();
      r := copy.NormalizeMe(size);
      assert v.IsZero() || v.IsNormal() ==> r.Value() == v;
      assert !v.IsZero() ==> r.Value().IsNormal();
      assert v == Value();
    }

    /** `equals(Object)`: equal to another vector exactly when both components are equal. */
    predicate Equals(other: Vector2D?)
      reads this, other
      ensures Equals(other) <==> other != null && other.Value() == Value()
    {
      other != null && (other == this || (x == other.x && y == other.y))
    }
  }
}
