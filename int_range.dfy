/** com.alegria2d.core.math.IntRange: an inclusive interval of Java ints running from
    `from` to `to`, which may be descending. A range of more than one number carries a
    java.util.Random object for `random()`. */
module IntRanges {
  import opened Wrappers
  import opened JavaInts

  /** A java.util.Random object, known only by its identity; the numbers it draws are
      inputs of the model. */
  datatype Generator = Generator(id: nat)

  /** Java's `Math.abs(int)`: the most negative int is its own absolute value. */
  function Abs32(x: Int32): (r: Int32)
    ensures x != MIN32 ==> r >= 0 && (r == x || r == -x)
    ensures x == MIN32 ==> r == MIN32
  {
    if x == MIN32 then MIN32 else if x < 0 then -x else x
  }

  /** Java's `Math.round(float)`: the floor of x + 1/2, saturated to the int range. */
  function Round(x: real): (r: Int32)
    ensures MIN32 as real <= x + 0.5 < MAX32 as real + 1.0 ==> r as real <= x + 0.5 < r as real + 1.0
    ensures x + 0.5 < MIN32 as real ==> r == MIN32
    ensures x + 0.5 >= MAX32 as real + 1.0 ==> r == MAX32
  {
    var n := (x + 0.5).Floor;
    if n < MIN32 then MIN32 else if n > MAX32 then MAX32 else n
  }

  /** Rounding a whole number gives it back. */
  lemma RoundWhole(n: Int32)
    ensures Round(n as real) == n
  {
  }

  /** Rounding keeps a value between two whole numbers between them. */
  lemma RoundBetween(x: real, lo: Int32, hi: Int32)
    requires lo as real <= x <= hi as real
    ensures lo <= Round(x) <= hi
  {
  }

  datatype IntRange = IntRange(from: Int32, to: Int32, random: Option<Generator>) {

    /** What the constructor establishes: the generator is dropped exactly when the range
        holds a single number. */
    predicate Valid()
    {
      random.None? <==> from == to
    }

    /** `to - from` in int arithmetic fits in an int: the range spans at most 2^31 - 1
        steps. The overflow-free properties below assume it. */
    predicate SpanFits()
    {
      MIN32 <= to - from <= MAX32
    }

    /** `isAscending()`: a single number counts as ascending. */
    predicate IsAscending()
    {
      from <= to
    }

    /** `isDescending()`. */
    predicate IsDescending()
    {
      !IsAscending()
    }

    /** `getMin()`: the smaller end, whichever of `from` and `to` it is. */
    function Min(): (r: Int32)
      ensures r <= from && r <= to
      ensures r == from || r == to
    {
      if IsAscending() then from else to
    }

    /** `getMax()`: the larger end. */
    function Max(): (r: Int32)
      ensures r >= from && r >= to
      ensures r == from || r == to
    {
      if IsDescending() then from else to
    }

    /** `isSingleNumber()`: the range has no generator. */
    predicate IsSingleNumber()
    {
      random.None?
    }

    /** `isInRange(value)`: between the two ends, in either direction. */
    predicate IsInRange(value: int)
      ensures IsInRange(value) <==> from <= value <= to || to <= value <= from
    {
      value >= Min() && value <= Max()
    }

    /** `sizeSign()`: the signed distance `to - from`, in int arithmetic. */
    function SizeSign(): (r: Int32)
      ensures SpanFits() ==> r == to - from
      ensures r == 0 <==> from == to
    {
      Wrap32DifferenceZero(to, from);
      Wrap32(to - from)
    }

    /** `getSize()`: `Math.abs(sizeSign()) + 1`, in int arithmetic. When the span fits
        and is not the largest one, this is the number of ints in the range. */
    function GetSize(): (r: Int32)
      ensures SpanFits() && Max() - Min() < MAX32 ==> r == Max() - Min() + 1
    {
      Wrap32(Abs32(SizeSign()) + 1)
    }

    /** The number of ints in the range, without overflow. */
    function Size(): (r: nat)
      ensures r >= 1
      ensures forall v :: IsInRange(v) <==> Min() <= v < Min() + r
    {
      Max() - Min() + 1
    }

    /** `random()` given `draw`, the number `nextInt(getSize())` returns. A single
        number is returned without using the generator. A size that has overflowed to
        a non-positive int makes `nextInt` throw. Otherwise the draw is added to `from`,
        which for a descending range lands above the range (see RandomLeavesRange). */
    function Random(draw: int): (r: Result<Int32>)
      requires Valid()
      requires !IsSingleNumber() && GetSize() > 0 ==> 0 <= draw < GetSize()
      ensures IsSingleNumber() ==> r == Success(to)
      ensures !IsSingleNumber() ==> (r.Success? <==> GetSize() > 0)
      ensures r.Failure? ==> r.error == IllegalArgument
      ensures IsAscending() && SpanFits() && r.Success? ==> IsInRange(r.value)
    {
      if IsSingleNumber() then Success(to)
      else if GetSize() <= 0 then Failure(IllegalArgument)
      else Success(Wrap32(draw + from))
    }

    /** A `random()` that stays in the range in both directions: the draw, taken below
        the exact size, counts up from the smaller end. */
    function RandomInRange(draw: nat): (r: Int32)
      requires Valid() && draw < Size()
      ensures IsInRange(r)
      ensures IsSingleNumber() ==> r == to
    {
      if IsSingleNumber() then to else Min() + draw
    }

    /** `getValue(factor)`: a single number gives `to`; otherwise the factor is clamped to
        [0, 1] and `round(sizeSign() * factor + from)` is returned. */
    function GetValue(factor: real): (r: Int32)
      requires Valid()
      ensures IsSingleNumber() ==> r == to
    {
      if IsSingleNumber() then to
      else Round(Interpolate(from as real, SizeSign() as real, Clamp(factor)))
    }

    /** `factorOf(number)`: a single number gives `to` itself (not a factor); a number
        outside the range gives 0; otherwise `(number - from) / sizeSign()` as a float. */
    function FactorOf(number: Int32): (r: real)
      requires Valid()
      ensures IsSingleNumber() ==> r == to as real
      ensures !IsSingleNumber() && !IsInRange(number) ==> r == 0.0
    {
      if IsSingleNumber() then to as real
      else if !IsInRange(number) then 0.0
      else Wrap32(number - from) as real / SizeSign() as real
    }

    /** `convert(value, range)`: `value`'s position in `range` mapped onto this range. */
    function Convert(value: Int32, range: IntRange): (r: Int32)
      requires Valid() && range.Valid()
      ensures IsSingleNumber() ==> r == to
    {
      GetValue(range.FactorOf(value))
    }

    /** `reverse()`: a single number gives the range itself, otherwise a new range with
        the ends swapped and the same generator. */
    function Reverse(): (r: IntRange)
      requires Valid()
      ensures r.Valid()
      ensures r.from == to && r.to == from
      ensures r.Min() == Min() && r.Max() == Max()
      ensures IsSingleNumber() ==> r == this
      ensures r.random == random
    {
      if IsSingleNumber() then this else IntRange(to, from, random)
    }
  }

  /** The factor clamp of `getValue`: below 0 gives 0, above 1 gives 1. */
  function Clamp(factor: real): (r: real)
    ensures 0.0 <= r <= 1.0
    ensures 0.0 <= factor <= 1.0 ==> r == factor
  {
    if factor < 0.0 then 0.0 else if factor > 1.0 then 1.0 else factor
  }

  /** `IntRange(from, to, random)`: the generator is dropped for a single number; otherwise
      the given one is kept, or `created` (the `new Random()`) is used when none is
      given. */
  function NewIntRange(from: Int32, to: Int32, random: Option<Generator>, created: Generator): (r: IntRange)
    ensures r.Valid() && r.from == from && r.to == to
    ensures r.IsSingleNumber() <==> from == to
    ensures from != to && random.Some? ==> r.random == random
  {
    if from == to then IntRange(from, to, None)
    else IntRange(from, to, if random.Some? then random else Some(created))
  }

  /** `IntRange(fromTo)`: the single number `fromTo`. */
  function SingleNumber(fromTo: Int32): (r: IntRange)
    ensures r.Valid() && r.IsSingleNumber()
    ensures forall v :: r.IsInRange(v) <==> v == fromTo
  {
    NewIntRange(fromTo, fromTo, None, Generator(0))
  }

  /** The point a fraction `t` of the span `s` away from `a`. */
  function Interpolate(a: real, s: real, t: real): real
  {
    s * t + a
  }

  /** Interpolating by the fraction `d / s` of the span `s` moves exactly `d`. */
  lemma InterpolateQuotient(a: real, s: real, d: real)
    requires s != 0.0
    ensures Interpolate(a, s, d / s) == a + d
  {
    QuotientCancels(d, s);
  }

  /** Scaling by a factor in [0, 1] keeps a number between 0 and itself. */
  lemma ScaledBetween(s: real, t: real)
    requires 0.0 <= t <= 1.0
    ensures s >= 0.0 ==> 0.0 <= s * t <= s
    ensures s <= 0.0 ==> s <= s * t <= 0.0
  {
    assert s - s * t == s * (1.0 - t);
  }

  /** A point a fraction `t` in [0, 1] of the way from `a` to `b` (`s` being `b - a`)
      lies between them. */
  lemma BetweenEnds(a: real, b: real, s: real, t: real)
    requires s == b - a && 0.0 <= t <= 1.0
    ensures a <= b ==> a <= Interpolate(a, s, t) <= b
    ensures b <= a ==> b <= Interpolate(a, s, t) <= a
  {
    ScaledBetween(s, t);
  }

  /** Dividing by a non-zero number and multiplying back gives the dividend. */
  lemma QuotientCancels(d: real, s: real)
    requires s != 0.0
    ensures s * (d / s) == d
  {
  }

  /** A quotient whose dividend lies between 0 and the divisor is a factor in [0, 1]. */
  lemma QuotientInUnit(d: real, s: real)
    requires (s > 0.0 && 0.0 <= d <= s) || (s < 0.0 && s <= d <= 0.0)
    ensures 0.0 <= d / s <= 1.0
  {
    QuotientCancels(d, s);
  }

  /** In a range whose span fits, the offset `number - from` of a number of the range
      lies between 0 and `sizeSign()`. */
  lemma OffsetBetween(r: IntRange, number: Int32)
    requires r.Valid() && !r.IsSingleNumber() && r.SpanFits() && r.IsInRange(number)
    ensures var s := r.SizeSign() as real; var d := Wrap32(number - r.from) as real;
      (s > 0.0 && 0.0 <= d <= s) || (s < 0.0 && s <= d <= 0.0)
  {
    assert Wrap32(number - r.from) == number - r.from;
  }

  /** In a range whose span fits, `getValue` stays between the ends whatever the
      factor. */
  lemma GetValueInRange(r: IntRange, factor: real)
    requires r.Valid() && r.SpanFits()
    ensures r.IsInRange(r.GetValue(factor))
  {
    if !r.IsSingleNumber() {
      var s, t := r.SizeSign() as real, Clamp(factor);
      BetweenEnds(r.from as real, r.to as real, s, t);
      RoundBetween(Interpolate(r.from as real, s, t), r.Min(), r.Max());
    }
  }

  /** In a range whose span fits, `factorOf` is a factor in [0, 1]. */
  lemma FactorOfInUnit(r: IntRange, number: Int32)
    requires r.Valid() && !r.IsSingleNumber() && r.SpanFits()
    ensures 0.0 <= r.FactorOf(number) <= 1.0
  {
    if r.IsInRange(number) {
      OffsetBetween(r, number);
      QuotientInUnit(Wrap32(number - r.from) as real, r.SizeSign() as real);
    }
  }

  /** A range whose span fits maps the factors 0 and 1 to its ends, and clamps
      anything beyond them. */
  lemma GetValueEnds(r: IntRange)
    requires r.Valid() && !r.IsSingleNumber() && r.SpanFits()
    ensures r.GetValue(0.0) == r.from && r.GetValue(1.0) == r.to
    ensures forall f :: f <= 0.0 ==> r.GetValue(f) == r.from
    ensures forall f :: f >= 1.0 ==> r.GetValue(f) == r.to
  {
    RoundWhole(r.from);
    RoundWhole(r.to);
  }

  /** `getValue` undoes `factorOf`: every number of a range that never overflows is
      found again from its factor. */
  lemma FactorOfRoundTrip(r: IntRange, number: Int32)
    requires r.Valid() && !r.IsSingleNumber() && r.SpanFits() && r.IsInRange(number)
    ensures r.GetValue(r.FactorOf(number)) == number
  {
    var s, d := r.SizeSign() as real, Wrap32(number - r.from) as real;
    OffsetBetween(r, number);
    QuotientInUnit(d, s);
    InterpolateQuotient(r.from as real, s, d);
    assert r.from as real + d == number as real;
    RoundWhole(number);
  }

  /** `convert` between two ranges that never overflow maps an end onto the matching
      end. */
  lemma ConvertEnds(target: IntRange, range: IntRange)
    requires target.Valid() && !target.IsSingleNumber() && target.SpanFits()
    requires range.Valid() && !range.IsSingleNumber() && range.SpanFits()
    ensures target.Convert(range.from, range) == target.from
    ensures target.Convert(range.to, range) == target.to
  {
    var s := range.SizeSign() as real;
    assert Wrap32(range.from - range.from) == 0;
    QuotientCancels(0.0, s);
    QuotientCancels(s, s);
    GetValueEnds(target);
  }

  /** Reversing twice gives the original range back. */
  lemma ReverseInvolutive(r: IntRange)
    requires r.Valid()
    ensures r.Reverse().Reverse() == r
  {
  }

  /** The constructors keep a range single exactly when both ends are equal. */
  lemma SingleNumberIffEqualEnds(r: IntRange)
    requires r.Valid()
    ensures r.IsSingleNumber() <==> r.from == r.to
    ensures r.IsSingleNumber() <==> r.Size() == 1
  {
  }

  /** Finding: `random()` on a descending range. IntRange(10, 6) has size 5, and the
      draw 4 gives 4 + 10 = 14, outside [6, 10]. */
  lemma RandomLeavesRange()
    ensures var r := NewIntRange(10, 6, None, Generator(0));
      r.GetSize() == 5 && r.Random(4) == Success(14) && !r.IsInRange(14)
  {
  }

  /** Finding: `getSize()` overflows. IntRange(0, 2^31 - 1) holds 2^31 numbers, but
      `Math.abs(2^31 - 1) + 1` wraps to the most negative int, and `random()` on it
      throws. */
  lemma GetSizeOverflows()
    ensures var r := NewIntRange(0, MAX32, None, Generator(0));
      r.GetSize() == MIN32 && r.Size() == MAX32 + 1 && r.Random(0) == Failure(IllegalArgument)
  {
  }
}
