/**
 Java's 32-bit signed `int`: values, the wrapping `+` and `+=`, and
 `Integer.compareTo`. Dafny integers are unbounded, so two's-complement
 wrap-around is written out explicitly here.
 */
module JavaInt {

  const MIN: int := -0x8000_0000
  const MAX: int := 0x7fff_ffff
  const MODULUS: int := 0x1_0000_0000

  /** A value of Java type `int`. */
  type Int32 = x: int | MIN <= x <= MAX

  /** How far `x` lies outside the `int` range. */
  function Excess(x: int): nat
  {
    if x > MAX then x - MAX else if x < MIN then MIN - x else 0
  }

  /**
   Reduces a mathematical integer to the `int` with the same low 32 bits,
   by moving it 2^32 at a time towards the `int` range.
   */
  function Wrap(x: int): (r: Int32)
    ensures MIN <= x <= MAX ==> r == x
    decreases Excess(x)
  {
    if x > MAX then Wrap(x - MODULUS)
    else if x < MIN then Wrap(x + MODULUS)
    else x
  }

  /** The wrapped value differs from the original by a multiple of 2^32: the low 32 bits are kept. */
  lemma {:induction false} WrapKeepsLowBits(x: int)
    ensures (x - Wrap(x)) % MODULUS == 0
    decreases Excess(x)
  {
    if x > MAX {
      WrapKeepsLowBits(x - MODULUS);
      var k := (x - MODULUS - Wrap(x)) / MODULUS;
      assert x - Wrap(x) == MODULUS * (k + 1);
    } else if x < MIN {
      WrapKeepsLowBits(x + MODULUS);
      var k := (x + MODULUS - Wrap(x)) / MODULUS;
      assert x - Wrap(x) == MODULUS * (k - 1);
    }
  }

  /** Adding 2^32 does not change the wrapped value. */
  lemma ShiftInvariant(x: int)
    ensures Wrap(x + MODULUS) == Wrap(x)
  {
  }

  /** Wrapping an intermediate sum does not change the wrapped total. */
  lemma {:induction false} WrapOfWrappedSum(x: int, y: int)
    ensures Wrap(Wrap(x) + y) == Wrap(x + y)
    decreases Excess(x)
  {
    if x > MAX {
      WrapOfWrappedSum(x - MODULUS, y);
      ShiftInvariant(x - MODULUS + y);
    } else if x < MIN {
      WrapOfWrappedSum(x + MODULUS, y);
      ShiftInvariant(x + y);
    }
  }

  /** Java `a + b` on two `int`s: exact when it fits, otherwise off by 2^32. */
  function Add(a: Int32, b: Int32): (r: Int32)
    ensures MIN <= a + b <= MAX ==> r == a + b
    ensures a + b > MAX ==> r == a + b - MODULUS
    ensures a + b < MIN ==> r == a + b + MODULUS
  {
    Wrap(a + b)
  }

  /** `Integer.compareTo`: -1, 0 or 1 by the order of the two values. */
  function CompareTo(a: Int32, b: Int32): (r: int)
    ensures -1 <= r <= 1
    ensures r < 0 <==> a < b
    ensures r == 0 <==> a == b
    ensures r > 0 <==> a > b
  {
    if a < b then -1 else if a == b then 0 else 1
  }

  /** Two wrapping additions in a row equal one wrap of the exact total. */
  lemma WrapChain(start: int, first: int, second: int, mid: int, last: int)
    requires mid == Wrap(start + first)
    requires last == Wrap(mid + second)
    ensures last == Wrap(start + (first + second))
  {
    WrapOfWrappedSum(start + first, second);
    assert start + first + second == start + (first + second);
  }

  /** Adding a wrapped value to an `int` wraps the exact sum. */
  lemma AddWrapped(a: Int32, x: int)
    ensures Add(a, Wrap(x)) == Wrap(a + x)
  {
    WrapOfWrappedSum(x, a);
    assert Wrap(x) + a == a + Wrap(x) && x + a == a + x;
  }

  /** Java `int` addition is associative and commutative despite overflow. */
  lemma AddAssociativeCommutative(a: Int32, b: Int32, c: Int32)
    ensures Add(Add(a, b), c) == Add(a, Add(b, c))
    ensures Add(a, b) == Add(b, a)
  {
    WrapOfWrappedSum(a + b, c);
    WrapOfWrappedSum(b + c, a);
  }
}
