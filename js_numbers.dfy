/**
  The ECMAScript Number operations the hue hash needs, on integral values.
  The model takes every Number here to be an integer below 2^53 in magnitude
  (Hue.HashBound shows the hash stays there for names shorter than 2^21 code
  units), where IEEE-754 addition and subtraction are exact, so they are
  written as `int` arithmetic; only the operations that are not plain
  arithmetic are spelled out.
 */
module JsNumbers {

  const TwoTo31: int := 0x8000_0000
  const TwoTo32: int := 0x1_0000_0000

  function Abs(x: int): (r: nat)
    ensures r == x || r == -x
  {
    if x < 0 then -x else x
  }

  /** 2^n */
  function Pow2(n: nat): (r: nat)
    ensures r >= 1
  {
    if n == 0 then 1 else 2 * Pow2(n - 1)
  }

  predicate IsInt32(x: int) {
    -TwoTo31 <= x < TwoTo31
  }

  /**
    ToInt32 (section 7.1.6 of ECMA-262) of an integral Number: the value in
    [-2^31, 2^31) congruent to `x` modulo 2^32.
   */
  function ToInt32(x: int): (r: int)
    ensures IsInt32(r)
    ensures r % TwoTo32 == x % TwoTo32
  {
    var m := x % TwoTo32;
    if m >= TwoTo31 then m - TwoTo32 else m
  }

  /** The two properties of ToInt32 determine its result. */
  lemma ToInt32Unique(x: int, r: int)
    requires IsInt32(r) && r % TwoTo32 == x % TwoTo32
    ensures r == ToInt32(x)
  {
  }

  /** Adding a multiple of 2^32 does not change the residue. */
  lemma AddMultiple(y: int, c: int)
    ensures (y + c * TwoTo32) % TwoTo32 == y % TwoTo32
  {
  }

  /**
    Number::leftShift (section 6.1.6.1.9 of ECMA-262): `x << count` shifts
    ToInt32(x) left by count mod 32 bits and reads the low 32 bits back as a
    signed integer.
   */
  function ShiftLeft(x: int, count: nat): (r: int)
    ensures IsInt32(r)
  {
    ToInt32(ToInt32(x) * Pow2(count % 32))
  }

  /** The shift is the 32-bit reading of the full product: only `x` mod 2^32 matters. */
  lemma ShiftLeftValue(x: int, count: nat)
    ensures ShiftLeft(x, count) == ToInt32(x * Pow2(count % 32))
    ensures ShiftLeft(x, count) % TwoTo32 == (x * Pow2(count % 32)) % TwoTo32
  {
    var k := Pow2(count % 32);
    var a := ToInt32(x);
    var p := (x - a) / TwoTo32;
    assert x == a + p * TwoTo32;
    assert x * k == a * k + (p * k) * TwoTo32;
    AddMultiple(a * k, p * k);
    ToInt32Unique(x * k, ToInt32(a * k));
  }

  /**
    Number::remainder (section 6.1.6.1.6 of ECMA-262) of integral operands:
    the remainder of truncating division. Its magnitude is |n| mod |d| and its
    sign follows the dividend `n`, unlike Dafny's `%`, which is never negative.
   */
  function Remainder(n: int, d: int): (r: int)
    requires d != 0
    ensures Abs(r) == Abs(n) % Abs(d)
    ensures n >= 0 ==> 0 <= r < Abs(d)
    ensures n < 0 ==> -(Abs(d) as int) < r <= 0
  {
    if n >= 0 then n % Abs(d) else -((-n) % Abs(d))
  }
}
