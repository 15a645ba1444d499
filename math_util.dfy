/** com.alegria2d.math.MathUtil: vector helpers over com.alegria2d.math.Vector2D. The Java
    class has no state; its methods become module-level members here. */
module MathUtil {
  import opened Vectors

  /** The squared distance between two points: never negative, and zero exactly when
      the points coincide. */
  function SquaredDistance(p1: Vec, p2: Vec): (r: real)
    ensures r >= 0.0
    ensures r == 0.0 <==> p1 == p2
  {
    MinusIsZero(p1, p2);
    p1.Minus(p2).SizeSqr()
  }

  /** Two points differ by the zero vector exactly when they coincide. */
  lemma MinusIsZero(p1: Vec, p2: Vec)
    ensures p1.Minus(p2) == Vec(0.0, 0.0) <==> p1 == p2
  {
  }

  /** A square is never negative. */
  lemma SquareNonNegative(a: real, s: real)
    requires s == a * a
    ensures s >= 0.0
  {
    if a < 0.0 {
      assert s == (-a) * (-a);
    }
  }

  /** The squared distance does not depend on the order of the points. */
  lemma SquaredDistanceSymmetric(p1: Vec, p2: Vec)
    ensures SquaredDistance(p1, p2) == SquaredDistance(p2, p1)
  {
    var d, e := p1.Minus(p2), p2.Minus(p1);
    assert e == d.Negative();
    assert d.x * d.x == e.x * e.x && d.y * d.y == e.y * e.y;
  }

  /** `distanceSqr(p1, p2)`: `p1.minus(p2).getSizeSqr()`. `minus` works on a copy, so
      neither point changes. */
  method DistanceSqr(p1: Vector2D, p2: Vector2D) returns (r: real)
    ensures r == SquaredDistance(p1.Value(), p2.Value())
  {
    var difference := p1.Minus(p2);
    r := difference.Value().SizeSqr();
  }

  /** `ray` minus twice `d` times `normal`: the reflection formula for a given dot
      product `d`. */
  function ReflectedBy(ray: Vec, normal: Vec, d: real): Vec
  {
    ray.Minus(normal.Scale(2.0 * d))
  }

  /** The reflection of `ray` on a surface with unit normal `normal`: the component of
      the ray along the normal is reversed. */
  function Reflected(ray: Vec, normal: Vec): Vec
  {
    ReflectedBy(ray, normal, ray.DotProduct(normal))
  }

  /** `reflect` as written: the same formula with the clamped `dot`. */
  function ReflectedAsWritten(ray: Vec, normal: Vec): Vec
  {
    ReflectedBy(ray, normal, ray.Dot(normal))
  }

  /** Reflecting on a unit normal reverses the ray's component along the normal. */
  lemma ReflectedReversesNormalPart(ray: Vec, normal: Vec)
    requires normal.IsNormal()
    ensures Reflected(ray, normal).DotProduct(normal) == -ray.DotProduct(normal)
  {
  }

  /** Reflecting twice on the same unit normal gives the ray back. */
  lemma ReflectedInvolutive(ray: Vec, normal: Vec)
    requires normal.IsNormal()
    ensures Reflected(Reflected(ray, normal), normal) == ray
  {
    ReflectedReversesNormalPart(ray, normal);
  }

  /** Reflecting on a unit normal keeps the ray's length. */
  lemma ReflectedKeepsSize(ray: Vec, normal: Vec)
    requires normal.IsNormal()
    ensures Reflected(ray, normal).SizeSqr() == ray.SizeSqr()
  {
  }

  /** When the exact dot product already lies in [-1, 1] (two unit vectors, say), the
      clamp changes nothing and `reflect` is the reflection. */
  lemma ReflectedAsWrittenAgrees(ray: Vec, normal: Vec)
    requires -1.0 <= ray.DotProduct(normal) <= 1.0
    ensures ReflectedAsWritten(ray, normal) == Reflected(ray, normal)
  {
  }

  /** Finding: the clamp breaks `reflect` for rays longer than 1. A ray (0, y) with
      y < -1 hitting the floor with normal (0, 1) comes back as (0, y + 2) instead of
      (0, -y); the ray (0, -5) comes back as (0, -3) instead of (0, 5). */
  lemma ReflectedAsWrittenClamps(y: real)
    requires y < -1.0
    ensures ReflectedAsWritten(Vec(0.0, y), Vec(0.0, 1.0)) == Vec(0.0, y + 2.0)
    ensures Reflected(Vec(0.0, y), Vec(0.0, 1.0)) == Vec(0.0, -y)
    ensures ReflectedAsWritten(Vec(0.0, y), Vec(0.0, 1.0)) != Reflected(Vec(0.0, y), Vec(0.0, 1.0))
  {
    var ray, normal := Vec(0.0, y), Vec(0.0, 1.0);
    assert ray.DotProduct(normal) == y;
    ReflectedByOnFloor(y, -1.0);
    ReflectedByOnFloor(y, y);
  }

  /** A vertical ray reflected on the normal (0, 1) with dot product `d`. */
  lemma ReflectedByOnFloor(y: real, d: real)
    ensures ReflectedBy(Vec(0.0, y), Vec(0.0, 1.0), d) == Vec(0.0, y - 2.0 * d)
  {
    assert Vec(0.0, 1.0).Scale(2.0 * d) == Vec(0.0, 2.0 * d);
  }

  /** `reflect(ray, normal)`: a new vector; `multiply` and `minus` work on copies, so
      neither argument changes. */
  method Reflect(ray: Vector2D, normal: Vector2D) returns (r: Vector2D)
    ensures fresh(r) && r.Value() == ReflectedAsWritten(ray.Value(), normal.Value())
  {
    var d := ray.Value().Dot(normal.Value());
    var scaled := normal.Multiply(2.0 * d);
    r := ray.Minus(scaled);
  }

  /** `truncate(vector, size)`: a vector longer than `size` is shortened to `size` in
      place by `setSize`; any other vector, the zero vector among them, is left as it
      is. Either way the same object comes back. `length` stands for `getSize()`, the
      square root of the squared size. */
  method Truncate(vector: Vector2D, size: real, length: real) returns (r: Vector2D)
    requires length >= 0.0 && length * length == vector.Value().SizeSqr()
    modifies vector
    ensures r == vector
    ensures vector.Value().SizeSqr() <= size * size
    ensures old(vector.Value()).SizeSqr() <= size * size ==> vector.Value() == old(vector.Value())
    ensures old(vector.Value()).SizeSqr() > size * size ==>
      vector.Value() == old(vector.Value()).Scale(size / length) && vector.Value().SizeSqr() == size * size
  {
    var bound := size * size;
    SquareNonNegative(size, bound);
    if vector.Value().SizeSqr() > bound {
      r := vector.SetSize(size, length);
    } else {
      r := vector;
    }
  }
}
