/** com.alegria2d.math.HashBuilder: the multiply-accumulate hash of Effective Java,
    `result := seed * result + value`, in Java's wrapping `int` arithmetic. */
module Hashing {
  import opened JavaInts
  import opened Wrappers

  const DEFAULT_BASE: Int32 := 17
  const DEFAULT_SEED: Int32 := 37

  /** One `add(int)`: the new result after folding `v` into `acc`. */
  function Step(seed: Int32, acc: Int32, v: Int32): Int32
  {
    Wrap32(seed * acc + v)
  }

  /** Folding the values left to right, one `add(int)` each. */
  function Fold(seed: Int32, acc: Int32, vs: seq<Int32>): Int32
    decreases |vs|
  {
    if vs == [] then acc else Fold(seed, Step(seed, acc, vs[0]), vs[1..])
  }

  /** Adding one more value after a fold is one more step. */
  lemma {:induction false} FoldSnoc(seed: Int32, acc: Int32, vs: seq<Int32>, v: Int32)
    ensures Fold(seed, acc, vs + [v]) == Step(seed, Fold(seed, acc, vs), v)
    decreases |vs|
  {
    if vs != [] {
      assert (vs + [v])[1..] == vs[1..] + [v];
      FoldSnoc(seed, Step(seed, acc, vs[0]), vs[1..], v);
    }
  }

  /** Folding two arrays one after the other is folding their concatenation. */
  lemma {:induction false} FoldAppend(seed: Int32, acc: Int32, xs: seq<Int32>, ys: seq<Int32>)
    ensures Fold(seed, acc, xs + ys) == Fold(seed, Fold(seed, acc, xs), ys)
    decreases |xs|
  {
    if xs == [] {
      assert xs + ys == ys;
    } else {
      assert (xs + ys)[1..] == xs[1..] + ys;
      FoldAppend(seed, Step(seed, acc, xs[0]), xs[1..], ys);
    }
  }

  /** Applies `f` to every element: how the array overloads turn their elements into `int`s. */
  function Map<T>(f: T -> Int32, vs: seq<T>): (r: seq<Int32>)
    ensures |r| == |vs|
    ensures forall i :: 0 <= i < |vs| ==> r[i] == f(vs[i])
  {
    if vs == [] then [] else [f(vs[0])] + Map(f, vs[1..])
  }

  lemma MapPrefix<T>(f: T -> Int32, vs: seq<T>, i: nat)
    requires i < |vs|
    ensures Map(f, vs[..i + 1]) == Map(f, vs[..i]) + [f(vs[i])]
  {
    assert Map(f, vs[..i + 1])[..i] == Map(f, vs[..i]);
  }

  /** The `int` that `add(boolean)` folds. */
  function BooleanHash(b: bool): (r: Int32)
    ensures r == 0 || r == 1
    ensures b <==> r == 1
  {
    if b then 1 else 0
  }

  /** The `int` that `add(char)` folds: the char passed through a `(short)` cast. */
  function CharHash(c: Char16): Int32
  {
    CharToShort(c)
  }

  /** `(int) (value ^ (value >>> 32))`: the low half of the long XOR its high half. */
  function LongHash(v: Int64): Int32
  {
    var bits := v % MODULUS64;                 // the 64 bits of v, read unsigned
    Pow2Of32();
    LongToInt(XorBits(bits % MODULUS32, bits / MODULUS32, 32))
  }

  function Pow2(n: nat): (p: nat)
    ensures p > 0
  {
    if n == 0 then 1 else 2 * Pow2(n - 1)
  }

  /** Bitwise XOR of the low `n` bits of `a` and `b`, computed one bit at a time. */
  function XorBits(a: nat, b: nat, n: nat): (r: nat)
    ensures r < Pow2(n)
  {
    if n == 0 then 0 else (a % 2 + b % 2) % 2 + 2 * XorBits(a / 2, b / 2, n - 1)
  }

  lemma {:induction false} Pow2Add(a: nat, b: nat)
    ensures Pow2(a + b) == Pow2(a) * Pow2(b)
  {
    if a > 0 {
      Pow2Add(a - 1, b);
    }
  }

  lemma Pow2Of32()
    ensures Pow2(32) == MODULUS32
  {
    assert Pow2(8) == 256;
    Pow2Add(8, 8);
    Pow2Add(16, 16);
  }

  /** XOR with zero keeps a value that fits in the `n` bits. */
  lemma {:induction false} XorBitsZero(a: nat, n: nat)
    requires a < Pow2(n)
    ensures XorBits(a, 0, n) == a
  {
    if n > 0 {
      XorBitsZero(a / 2, n - 1);
    }
  }

  /** XOR of a value with itself clears every bit. */
  lemma {:induction false} XorBitsSelf(a: nat, n: nat)
    ensures XorBits(a, a, n) == 0
  {
    if n > 0 {
      XorBitsSelf(a / 2, n - 1);
    }
  }

  /** The `int` that `add(Object)` folds: 0 for null, else the object's own `hashCode()`,
      which is a parameter of the model. */
  function ObjectHash(o: Option<Int32>): (r: Int32)
    ensures o.None? ==> r == 0
    ensures o.Some? ==> r == o.value
  {
    match o
    case None => 0
    case Some(h) => h
  }

  function Widen8(b: Int8): Int32 { b }
  function Widen16(s: Int16): Int32 { s }

  /** A non-negative `long` that fits an `int` hashes to itself. */
  lemma LongHashOfSmall(v: Int64)
    requires 0 <= v <= MAX32
    ensures LongHash(v) == v
  {
    var bits := v % MODULUS64;
    assert bits == v;
    assert bits / MODULUS32 == 0 && bits % MODULUS32 == v;
    Pow2Of32();
    XorBitsZero(v, 32);
  }

  /** -1 has all 64 bits set, so its two halves cancel. */
  lemma LongHashOfMinusOne()
    ensures LongHash(-1) == 0
  {
    var bits := -1 % MODULUS64;
    assert bits == MODULUS64 - 1;
    assert bits / MODULUS32 == MODULUS32 - 1 && bits % MODULUS32 == MODULUS32 - 1;
    XorBitsSelf(MODULUS32 - 1, 32);
  }

  /** A char at or above 0x8000 contributes a negative value. */
  lemma CharHashSign(c: Char16)
    ensures c < 0x8000 ==> CharHash(c) == c
    ensures c >= 0x8000 ==> CharHash(c) == c - 0x1_0000 < 0
  {
  }

  class HashBuilder {
    var seed: Int32
    var base: Int32
    var result: Int32

    /** What the constructors establish: base and seed are both bigger than 2. */
    ghost predicate Valid()
      reads this
    {
      base >= 3 && seed >= 3
    }

    /** `HashBuilder()`: base 17, seed 37. */
    constructor ()
      ensures Valid() && base == DEFAULT_BASE && seed == DEFAULT_SEED && result == DEFAULT_BASE
    {
      seed, base, result := DEFAULT_SEED, DEFAULT_BASE, DEFAULT_BASE;
    }

    /** `HashBuilder(int base, int seed)` once both checks have passed. */
    constructor WithBaseSeed(base: Int32, seed: Int32)
      requires base >= 3 && seed >= 3
      ensures Valid() && this.base == base && this.seed == seed && result == base
    {
      this.seed, this.base, result := seed, base, base;
    }

    /** `HashBuilder(int base, int seed)`, which throws IllegalArgumentException
        when either is smaller than 3. */
    static method Create(base: Int32, seed: Int32) returns (r: Result<HashBuilder>)
      ensures r.Failure? <==> base < 3 || seed < 3
      ensures r.Failure? ==> r.error == IllegalArgument
      ensures r.Success? ==> fresh(r.value) && r.value.Valid()
      ensures r.Success? ==> r.value.base == base && r.value.seed == seed && r.value.result == base
    {
      if base < 3 {
        return Failure(IllegalArgument);
      }
      if seed < 3 {
        return Failure(IllegalArgument);
      }
      var hb := new HashBuilder.WithBaseSeed(base, seed);
      r := Success(hb);
    }

    /** `HashBuilder(int firstValue)`: a default builder with one value added. */
    constructor OfInt(firstValue: Int32)
      ensures Valid() && base == DEFAULT_BASE && seed == DEFAULT_SEED
      ensures result == Step(DEFAULT_SEED, DEFAULT_BASE, firstValue)
    {
      seed, base, result := DEFAULT_SEED, DEFAULT_BASE, DEFAULT_BASE;
      new;
      var _ := Add(firstValue);
    }

    /** `HashBuilder(long firstValue)`. */
    constructor OfLong(firstValue: Int64)
      ensures Valid() && base == DEFAULT_BASE && seed == DEFAULT_SEED
      ensures result == Step(DEFAULT_SEED, DEFAULT_BASE, LongHash(firstValue))
    {
      seed, base, result := DEFAULT_SEED, DEFAULT_BASE, DEFAULT_BASE;
      new;
      var _ := AddLong(firstValue);
    }

    /** `HashBuilder(char firstValue)`. */
    constructor OfChar(firstValue: Char16)
      ensures Valid() && base == DEFAULT_BASE && seed == DEFAULT_SEED
      ensures result == Step(DEFAULT_SEED, DEFAULT_BASE, CharHash(firstValue))
    {
      seed, base, result := DEFAULT_SEED, DEFAULT_BASE, DEFAULT_BASE;
      new;
      var _ := AddChar(firstValue);
    }

    /** `HashBuilder(boolean firstValue)`. */
    constructor OfBoolean(firstValue: bool)
      ensures Valid() && base == DEFAULT_BASE && seed == DEFAULT_SEED
      ensures result == Step(DEFAULT_SEED, DEFAULT_BASE, BooleanHash(firstValue))
    {
      seed, base, result := DEFAULT_SEED, DEFAULT_BASE, DEFAULT_BASE;
      new;
      var _ := AddBoolean(firstValue);
    }

    /** `HashBuilder(Object firstValue)`; `firstValue` is None for null, else the object's hash code. */
    constructor OfObject(firstValue: Option<Int32>)
      ensures Valid() && base == DEFAULT_BASE && seed == DEFAULT_SEED
      ensures result == Step(DEFAULT_SEED, DEFAULT_BASE, ObjectHash(firstValue))
    {
      seed, base, result := DEFAULT_SEED, DEFAULT_BASE, DEFAULT_BASE;
      new;
      var _ := AddObject(firstValue);
    }

    /** `reset()`: back to the base value; base and seed are kept. */
    method Reset()
      modifies this`result
      ensures Valid() == old(Valid())
      ensures result == base
    {
      result := base;
    }

    /** `add(int)`. */
    method Add(value: Int32) returns (r: HashBuilder)
      modifies this`result
      ensures Valid() == old(Valid())
      ensures r == this
      ensures result == Step(seed, old(result), value)
    {
      result := Wrap32(seed * result + value);
      r := this;
    }

    /** `add(char)`: goes through `add((short) value)`. */
    method AddChar(value: Char16) returns (r: HashBuilder)
      modifies this`result
      ensures Valid() == old(Valid())
      ensures r == this
      ensures result == Step(seed, old(result), CharHash(value))
    {
      r := Add(CharToShort(value));
    }

    /** `add(long)`. */
    method AddLong(value: Int64) returns (r: HashBuilder)
      modifies this`result
      ensures Valid() == old(Valid())
      ensures r == this
      ensures result == Step(seed, old(result), LongHash(value))
    {
      r := Add(LongHash(value));
    }

    /** `add(boolean)`: `add(1)` for true, `add(0)` for false. */
    method AddBoolean(value: bool) returns (r: HashBuilder)
      modifies this`result
      ensures Valid() == old(Valid())
      ensures r == this
      ensures result == Step(seed, old(result), BooleanHash(value))
    {
      r := Add(if value then 1 else 0);
    }

    /** `add(Object)`: `add(0)` for null, else `add(value.hashCode())`. */
    method AddObject(value: Option<Int32>) returns (r: HashBuilder)
      modifies this`result
      ensures Valid() == old(Valid())
      ensures r == this
      ensures result == Step(seed, old(result), ObjectHash(value))
    {
      r := Add(if value.None? then 0 else value.value);
    }

    /** `add(int[])`. */
    method AddInts(values: seq<Int32>) returns (r: HashBuilder)
      modifies this`result
      ensures Valid() == old(Valid())
      ensures r == this
      ensures result == Fold(seed, old(result), values)
    {
      for i := 0 to |values|
        invariant result == Fold(seed, old(result), values[..i])
      {
        FoldSnoc(seed, old(result), values[..i], values[i]);
        assert values[..i + 1] == values[..i] + [values[i]];
        r := Add(values[i]);
      }
      assert values[..|values|] == values;
      r := this;
    }

    /** `add(byte[])`: each byte is widened to an `int`. */
    method AddBytes(values: seq<Int8>) returns (r: HashBuilder)
      modifies this`result
      ensures Valid() == old(Valid())
      ensures r == this
      ensures result == Fold(seed, old(result), Map(Widen8, values))
    {
      for i := 0 to |values|
        invariant result == Fold(seed, old(result), Map(Widen8, values[..i]))
      {
        MapPrefix(Widen8, values, i);
        FoldSnoc(seed, old(result), Map(Widen8, values[..i]), values[i]);
        r := Add(values[i]);
      }
      assert values[..|values|] == values;
      r := this;
    }

    /** `add(short[])`: each short is widened to an `int`. */
    method AddShorts(values: seq<Int16>) returns (r: HashBuilder)
      modifies this`result
      ensures Valid() == old(Valid())
      ensures r == this
      ensures result == Fold(seed, old(result), Map(Widen16, values))
    {
      for i := 0 to |values|
        invariant result == Fold(seed, old(result), Map(Widen16, values[..i]))
      {
        MapPrefix(Widen16, values, i);
        FoldSnoc(seed, old(result), Map(Widen16, values[..i]), values[i]);
        r := Add(values[i]);
      }
      assert values[..|values|] == values;
      r := this;
    }

    /** `add(char[])`: one `add(char)` per element. */
    method AddChars(values: seq<Char16>) returns (r: HashBuilder)
      modifies this`result
      ensures Valid() == old(Valid())
      ensures r == this
      ensures result == Fold(seed, old(result), Map(CharHash, values))
    {
      for i := 0 to |values|
        invariant result == Fold(seed, old(result), Map(CharHash, values[..i]))
      {
        MapPrefix(CharHash, values, i);
        FoldSnoc(seed, old(result), Map(CharHash, values[..i]), CharHash(values[i]));
        r := AddChar(values[i]);
      }
      assert values[..|values|] == values;
      r := this;
    }

    /** `add(long[])`: one `add(long)` per element. */
    method AddLongs(values: seq<Int64>) returns (r: HashBuilder)
      modifies this`result
      ensures Valid() == old(Valid())
      ensures r == this
      ensures result == Fold(seed, old(result), Map(LongHash, values))
    {
      for i := 0 to |values|
        invariant result == Fold(seed, old(result), Map(LongHash, values[..i]))
      {
        MapPrefix(LongHash, values, i);
        FoldSnoc(seed, old(result), Map(LongHash, values[..i]), LongHash(values[i]));
        r := AddLong(values[i]);
      }
      assert values[..|values|] == values;
      r := this;
    }

    /** `add(boolean[])`: one `add(boolean)` per element. */
    method AddBooleans(values: seq<bool>) returns (r: HashBuilder)
      modifies this`result
      ensures Valid() == old(Valid())
      ensures r == this
      ensures result == Fold(seed, old(result), Map(BooleanHash, values))
    {
      for i := 0 to |values|
        invariant result == Fold(seed, old(result), Map(BooleanHash, values[..i]))
      {
        MapPrefix(BooleanHash, values, i);
        FoldSnoc(seed, old(result), Map(BooleanHash, values[..i]), BooleanHash(values[i]));
        r := AddBoolean(values[i]);
      }
      assert values[..|values|] == values;
      r := this;
    }

    /** `add(Object[])`: one `add(Object)` per element. */
    method AddObjects(values: seq<Option<Int32>>) returns (r: HashBuilder)
      modifies this`result
      ensures Valid() == old(Valid())
      ensures r == this
      ensures result == Fold(seed, old(result), Map(ObjectHash, values))
    {
      for i := 0 to |values|
        invariant result == Fold(seed, old(result), Map(ObjectHash, values[..i]))
      {
        MapPrefix(ObjectHash, values, i);
        FoldSnoc(seed, old(result), Map(ObjectHash, values[..i]), ObjectHash(values[i]));
        r := AddObject(values[i]);
      }
      assert values[..|values|] == values;
      r := this;
    }

    /** `equals(Object)`: null is never equal; otherwise result, base and seed must agree
        (the identity shortcut agrees with that). */
    predicate Equals(other: HashBuilder?)
      reads this, other
      ensures Equals(other) <==>
        other != null && other.result == result && other.base == base && other.seed == seed
    {
      other != null && (other == this || (other.result == result && other.base == base && other.seed == seed))
    }

    /** `hashCode()`: the hash computed so far. */
    function HashCode(): Int32
      reads this
    {
      result
    }
  }

  /** Adding an empty array leaves the hash as it was. */
  lemma FoldEmpty(seed: Int32, acc: Int32)
    ensures Fold(seed, acc, []) == acc
  {
  }
}
