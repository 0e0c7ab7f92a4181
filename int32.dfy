/** Java's 32-bit two's-complement `int` arithmetic, written out over Dafny's
    unbounded integers. Every `+` and unary `-` the builder performs on an
    `int` wraps around modulo 2^32. */
module Int32 {

  const MIN: int := -0x8000_0000
  const MAX: int := 0x7FFF_FFFF
  const MODULUS: int := 0x1_0000_0000

  /** A value of Java type `int`. */
  type i32 = v: int | MIN <= v <= MAX

  /** The `int` that a mathematical integer is truncated to. */
  function Wrap(v: int): (r: i32)
    ensures MIN <= v <= MAX ==> r == v
    ensures v == MAX + 1 ==> r == MIN
  {
    (v - MIN) % MODULUS + MIN
  }

  /** Java `a + b` on two `int`s. */
  function Add32(a: i32, b: i32): i32 { Wrap(a + b) }

  /** Java `-a` on an `int`. */
  function Neg32(a: i32): i32 { Wrap(-(a as int)) }

  /** Adding a multiple of 2^32 does not change the wrapped value. */
  lemma WrapPlusMultiple(v: int, k: int)
    ensures Wrap(v + k * MODULUS) == Wrap(v)
  {
    var d := (v - MIN) / MODULUS;
    var e := (v + k * MODULUS - MIN) / MODULUS;
    assert v - MIN == d * MODULUS + (v - MIN) % MODULUS;
    assert v + k * MODULUS - MIN == e * MODULUS + (v + k * MODULUS - MIN) % MODULUS;
  }

  /** The wrapped value differs from the original by a multiple of 2^32. */
  lemma WrapOffset(v: int) returns (k: int)
    ensures Wrap(v) == v + k * MODULUS
  {
    k := -((v - MIN) / MODULUS);
  }

  /** Wrapping an operand of a sum early or late gives the same `int`. */
  lemma WrapInner(a: int, b: int)
    ensures Wrap(a + Wrap(b)) == Wrap(a + b)
    ensures Wrap(a - Wrap(b)) == Wrap(a - b)
  {
    var k := WrapOffset(b);
    WrapPlusMultiple(a + b, k);
    assert a - Wrap(b) == (a - b) + (-k) * MODULUS;
    WrapPlusMultiple(a - b, -k);
  }

  /** `n + (-n)` is 0 in Java arithmetic for every `int`, but the two operands
      cancel as mathematical integers exactly when `n` is not `MIN`
      (because `-MIN` wraps to `MIN`). */
  lemma {:induction false} NegCancels(n: i32)
    ensures Add32(n, Neg32(n)) == 0
    ensures n + Neg32(n) == 0 <==> n != MIN
  {
    WrapInner(n, -(n as int));
    if n == MIN {
      assert Neg32(n) == MIN;
    }
  }

  /** Within one period either side of the `int` range, wrapping adds or
      subtracts 2^32 at most once. */
  lemma WrapOnce(v: int)
    requires MIN - MODULUS <= v <= MAX + MODULUS
    ensures Wrap(v) == if v < MIN then v + MODULUS else if v > MAX then v - MODULUS else v
  {
    if v < MIN {
      WrapPlusMultiple(v + MODULUS, -1);
    } else if v > MAX {
      WrapPlusMultiple(v - MODULUS, 1);
    }
  }

  /** Shifting right by `dx` and then left by `dx + w + 1` (all in Java
      arithmetic) moves by `-(w + 1)` in Java arithmetic, and by exactly that
      as integers when `dx + w + 1` does not overflow. */
  lemma {:induction false} ShiftBackSum(dx: i32, w: int)
    requires 0 <= w <= MAX
    ensures Wrap(dx + Neg32(Add32(Add32(dx, w), 1))) == -(w + 1)
    ensures dx + w + 1 <= MAX ==> dx + Neg32(Add32(Add32(dx, w), 1)) == -(w + 1)
  {
    var s := Add32(dx, w);
    WrapOnce(dx as int + w);
    var t := Add32(s, 1);
    WrapOnce(s as int + 1);
    var back := Neg32(t);
    WrapOnce(-(t as int));
    WrapOnce(dx as int + back);
    if dx + w < MAX {
      assert back == -(dx + w + 1);
    } else if dx + w == MAX {
      assert t == MIN && back == MIN;
    } else {
      assert s == dx + w - MODULUS && back == MODULUS - dx - w - 1;
    }
  }
}
