/** com.alegria2d.driver.lwjgl.graphics.OglDisplayMode: a screen mode (width, height,
    colour depth, refresh rate) with its own ordering, equality, hash and text form. The
    wrapped LWJGL mode is represented by its four `int`s. */
module OglDisplayModes {
  import opened JavaInts
  import Hashing

  /** What `equals(Object)` may be handed: `null`, an object of another class, or a
      display mode. */
  datatype JavaObject = Null | OtherClass | Mode(mode: DisplayMode)

  datatype DisplayMode = DisplayMode(width: Int32, height: Int32, depth: Int32, refreshRate: Int32) {

    /** Screen modes as LWJGL reports them: no field is negative. */
    predicate NonNegative()
    {
      width >= 0 && height >= 0 && depth >= 0 && refreshRate >= 0
    }

    /** `compareTo(o)`: `o`'s field minus this one's, in `int` arithmetic, at the first of
        width, height, depth and refresh rate where the two differ; 0 when none does. */
    function CompareTo(o: DisplayMode): (r: Int32)
      ensures r == 0 <==> this == o
    {
      Wrap32DifferenceZero(o.width, width);
      Wrap32DifferenceZero(o.height, height);
      Wrap32DifferenceZero(o.depth, depth);
      Wrap32DifferenceZero(o.refreshRate, refreshRate);
      if width != o.width then Wrap32(o.width - width)
      else if height != o.height then Wrap32(o.height - height)
      else if depth != o.depth then Wrap32(o.depth - depth)
      else Wrap32(o.refreshRate - refreshRate)
    }

    /** `equals(obj)`: false for `null` and for other classes, otherwise true exactly
        when all four fields agree (the same object among them). Equal modes hash alike. */
    predicate Equals(obj: JavaObject)
      ensures Equals(obj) <==> obj == Mode(this)
      ensures Equals(obj) ==> obj.mode.HashCode() == HashCode()
    {
      match obj
      case Null => false
      case OtherClass => false
      case Mode(mode) =>
        width == mode.width && height == mode.height &&
        depth == mode.depth && refreshRate == mode.refreshRate
    }

    /** `hashCode()`: starting at 17, `result = 27 * result + field` for width, height,
        depth and refresh rate in turn, in `int` arithmetic. */
    function HashCode(): Int32
    {
      Hashing.Fold(27, 17, [width, height, depth, refreshRate])
    }

    /** `toString()`: `String.format("%dx%dx%d@%dHz", ...)`. */
    function ToString(): string
    {
      DecimalString(width) + ['x'] + (DecimalString(height) + ['x'] + (DecimalString(depth) + ['@'] +
      (DecimalString(refreshRate) + "Hz")))
    }
  }

  /** The lexicographic order `compareTo` puts first: `a` comes before `b` when its
      first differing field among width, height, depth and refresh rate is larger. */
  predicate ComesBefore(a: DisplayMode, b: DisplayMode)
  {
    a.width > b.width ||
    (a.width == b.width && a.height > b.height) ||
    (a.width == b.width && a.height == b.height && a.depth > b.depth) ||
    (a.width == b.width && a.height == b.height && a.depth == b.depth && a.refreshRate > b.refreshRate)
  }

  /** For non-negative fields no subtraction overflows, and `compareTo` sorts larger
      modes first: negative exactly when `a` comes before `b`. */
  lemma CompareToOrdersDescending(a: DisplayMode, b: DisplayMode)
    requires a.NonNegative() && b.NonNegative()
    ensures a.CompareTo(b) < 0 <==> ComesBefore(a, b)
    ensures a.CompareTo(b) > 0 <==> ComesBefore(b, a)
  {
  }

  /** `compareTo` is zero on a mode and itself, and for non-negative fields swapping the
      arguments negates it. */
  lemma CompareToAntisymmetric(a: DisplayMode, b: DisplayMode)
    requires a.NonNegative() && b.NonNegative()
    ensures a.CompareTo(a) == 0
    ensures a.CompareTo(b) == -b.CompareTo(a)
  {
  }

  /** For non-negative fields `compareTo` is transitive. */
  lemma CompareToTransitive(a: DisplayMode, b: DisplayMode, c: DisplayMode)
    requires a.NonNegative() && b.NonNegative() && c.NonNegative()
    requires a.CompareTo(b) < 0 && b.CompareTo(c) < 0
    ensures a.CompareTo(c) < 0
  {
    CompareToOrdersDescending(a, b);
    CompareToOrdersDescending(b, c);
    CompareToOrdersDescending(a, c);
  }

  /** `compareTo` is zero exactly when `equals` holds. */
  lemma CompareToConsistentWithEquals(a: DisplayMode, b: DisplayMode)
    ensures a.CompareTo(b) == 0 <==> a.Equals(Mode(b))
  {
  }

  /** The hash is the polynomial 17·27⁴ + width·27³ + height·27² + depth·27 + refresh
      rate, reduced to an `int`. */
  lemma HashCodePolynomial(m: DisplayMode)
    ensures (m.HashCode() - (17 * 531441 + m.width * 19683 + m.height * 729 + m.depth * 27 + m.refreshRate)) % MODULUS32 == 0
  {
    var h0 := Hashing.Step(27, 17, m.width);
    var h1 := Hashing.Step(27, h0, m.height);
    var h2 := Hashing.Step(27, h1, m.depth);
    HashCodeSteps(m);
    StepCongruent(17, 17, m.width);
    StepCongruent(h0, 17 * 27 + m.width, m.height);
    StepCongruent(h1, 17 * 729 + m.width * 27 + m.height, m.depth);
    StepCongruent(h2, 17 * 19683 + m.width * 729 + m.height * 27 + m.depth, m.refreshRate);
  }

  /** The hash is four steps from 17, one field each. */
  lemma HashCodeSteps(m: DisplayMode)
    ensures m.HashCode() == Hashing.Step(27, Hashing.Step(27, Hashing.Step(27, Hashing.Step(27, 17,
      m.width), m.height), m.depth), m.refreshRate)
  {
    var h0 := Hashing.Step(27, 17, m.width);
    var h1 := Hashing.Step(27, h0, m.height);
    var h2 := Hashing.Step(27, h1, m.depth);
    var h3 := Hashing.Step(27, h2, m.refreshRate);
    var vs := [m.width, m.height, m.depth, m.refreshRate];
    assert vs[1..] == [m.height, m.depth, m.refreshRate];
    assert [m.height, m.depth, m.refreshRate][1..] == [m.depth, m.refreshRate];
    assert [m.depth, m.refreshRate][1..] == [m.refreshRate];
    assert [m.refreshRate][1..] == [];
    assert Hashing.Fold(27, 17, vs) == Hashing.Fold(27, h0, [m.height, m.depth, m.refreshRate]);
    assert Hashing.Fold(27, h0, [m.height, m.depth, m.refreshRate]) == Hashing.Fold(27, h1, [m.depth, m.refreshRate]);
    assert Hashing.Fold(27, h1, [m.depth, m.refreshRate]) == Hashing.Fold(27, h2, [m.refreshRate]);
    assert Hashing.Fold(27, h2, [m.refreshRate]) == Hashing.Fold(27, h3, []);
  }

  /** One hash step by 27 keeps a value congruent to its exact counterpart modulo 2³². */
  lemma StepCongruent(acc: Int32, exact: int, v: Int32)
    requires (acc - exact) % MODULUS32 == 0
    ensures (Hashing.Step(27, acc, v) - (27 * exact + v)) % MODULUS32 == 0
  {
    var q := (acc - exact) / MODULUS32;
    assert acc - exact == MODULUS32 * q;
    var w := Hashing.Step(27, acc, v);
    var p := (w - (27 * acc + v)) / MODULUS32;
    assert w - (27 * acc + v) == MODULUS32 * p;
    assert w - (27 * exact + v) == MODULUS32 * (p + 27 * q);
  }

  /** The decimal digit character for 0..9. */
  function DigitChar(d: nat): (c: char)
    requires d < 10
    ensures IsDigit(c)
  {
    ('0' as int + d) as char
  }

  /** The value of a digit character. */
  function DigitValue(c: char): (d: nat)
    requires IsDigit(c)
    ensures d < 10 && DigitChar(d) == c
  {
    c as int - '0' as int
  }

  predicate IsDigit(c: char)
  {
    '0' <= c <= '9'
  }

  predicate AllDigits(s: string)
  {
    forall i :: 0 <= i < |s| ==> IsDigit(s[i])
  }

  /** The shape of what `%d` prints: digits, after a minus sign for a negative number. */
  predicate IsDecimal(s: string)
  {
    |s| >= 1 && if s[0] == '-' then AllDigits(s[1..]) else AllDigits(s)
  }

  /** The decimal digits of a natural number, without leading zeros. */
  function Digits(n: nat): (s: string)
    ensures |s| >= 1 && AllDigits(s)
    decreases n
  {
    if n < 10 then [DigitChar(n)] else Digits(n / 10) + [DigitChar(n % 10)]
  }

  /** `%d`: a minus sign for a negative number, then the digits of the magnitude. */
  function DecimalString(n: int): (s: string)
    ensures IsDecimal(s)
    ensures s[0] == '-' <==> n < 0
  {
    if n < 0 then "-" + Digits(-n) else Digits(n)
  }

  /** Reads back a string of decimal digits. */
  function ParseDigits(s: string): nat
    requires AllDigits(s)
    decreases |s|
  {
    if s == [] then 0 else ParseDigits(s[..|s| - 1]) * 10 + DigitValue(s[|s| - 1])
  }

  /** Reads back what `%d` prints. */
  function ParseDecimal(s: string): int
    requires IsDecimal(s)
  {
    if s[0] == '-' then -(ParseDigits(s[1..]) as int) else ParseDigits(s)
  }

  /** Reading the digits of a number gives the number back. */
  lemma {:induction false} DigitsRoundTrip(n: nat)
    ensures ParseDigits(Digits(n)) == n
    decreases n
  {
    var s := Digits(n);
    if n < 10 {
      assert s == [DigitChar(n)];
      assert s[..0] == [];
    } else {
      assert s == Digits(n / 10) + [DigitChar(n % 10)];
      assert s[..|s| - 1] == Digits(n / 10);
      DigitsRoundTrip(n / 10);
    }
  }

  /** Reading what `%d` prints gives the number back. */
  lemma DecimalRoundTrip(n: int)
    ensures ParseDecimal(DecimalString(n)) == n
  {
    if n < 0 {
      assert DecimalString(n)[1..] == Digits(-n);
      DigitsRoundTrip(-n);
    } else {
      DigitsRoundTrip(n);
    }
  }

  /** `%d` prints different numbers differently. */
  lemma DecimalStringInjective(a: int, b: int)
    requires DecimalString(a) == DecimalString(b)
    ensures a == b
  {
    DecimalRoundTrip(a);
    DecimalRoundTrip(b);
  }

  /** Two strings joined by a separator that neither first part contains split the same
      way. */
  lemma SplitAtSeparator(a: string, b: string, c: string, d: string, sep: char)
    requires sep !in a && sep !in c
    requires a + [sep] + b == c + [sep] + d
    ensures a == c && b == d
  {
    var s := a + [sep] + b;
    FirstSeparator(a, b, sep);
    FirstSeparator(c, d, sep);
    assert |a| == |c|;
    assert a == s[..|a|] == c;
    assert b == s[|a| + 1..] == d;
  }

  /** In `a`, a separator and `b`, the separator first appears right after `a`. */
  lemma FirstSeparator(a: string, b: string, sep: char)
    requires sep !in a
    ensures (a + [sep] + b)[|a|] == sep
    ensures forall i :: 0 <= i < |a| ==> (a + [sep] + b)[i] != sep
  {
  }

  /** Different modes print differently: `toString` can be read back. */
  lemma ToStringInjective(m: DisplayMode, n: DisplayMode)
    requires m.ToString() == n.ToString()
    ensures m == n
  {
    var r1, r2 := DecimalString(m.refreshRate) + "Hz", DecimalString(n.refreshRate) + "Hz";
    var d1, d2 := DecimalString(m.depth) + ['@'] + r1, DecimalString(n.depth) + ['@'] + r2;
    var h1, h2 := DecimalString(m.height) + ['x'] + d1, DecimalString(n.height) + ['x'] + d2;
    SeparatorSplit(m.width, n.width, h1, h2, 'x');
    SeparatorSplit(m.height, n.height, d1, d2, 'x');
    SeparatorSplit(m.depth, n.depth, r1, r2, '@');
    SuffixSplit(m.refreshRate, n.refreshRate);
  }

  /** Two `%d` fields followed by the same separator split the same way. */
  lemma SeparatorSplit(a: int, b: int, rest1: string, rest2: string, sep: char)
    requires sep == 'x' || sep == '@'
    requires DecimalString(a) + [sep] + rest1 == DecimalString(b) + [sep] + rest2
    ensures a == b && rest1 == rest2
  {
    NoSeparatorIn(a, sep);
    NoSeparatorIn(b, sep);
    SplitAtSeparator(DecimalString(a), rest1, DecimalString(b), rest2, sep);
    DecimalStringInjective(a, b);
  }

  /** Two `%d` fields followed by "Hz" are the same number. */
  lemma SuffixSplit(a: int, b: int)
    requires DecimalString(a) + "Hz" == DecimalString(b) + "Hz"
    ensures a == b
  {
    var s1, s2 := DecimalString(a), DecimalString(b);
    assert |s1| == |s2|;
    assert s1 == (s1 + "Hz")[..|s1|];
    assert s2 == (s2 + "Hz")[..|s2|];
    DecimalStringInjective(a, b);
  }

  /** `%d` never prints a separator of the format. */
  lemma NoSeparatorIn(n: int, sep: char)
    requires sep == 'x' || sep == '@'
    ensures sep !in DecimalString(n)
  {
  }
}
