/** The number conversions of the converter: its own half-up rounding
    `myround`, Python's `int()` on a float and floor division `//`. */
module Rounding {

  /** `myround(num)`: 0 below one half; otherwise the integer part of the
      decimal text of `num`, plus one when its first decimal digit exceeds 4. */
  function MyRound(num: real): (r: nat)
    ensures num < 0.5 ==> r == 0
    ensures num >= 0.5 ==> r as real <= num + 0.5 < r as real + 1.0
  {
    if num < 0.5 then 0
    else
      var whole := num.Floor;
      var firstDecimal := ((num - whole as real) * 10.0).Floor;
      FirstDecimalRule(num);
      if firstDecimal > 4 then whole + 1 else whole
  }

  /** The first decimal digit exceeds 4 exactly when the fraction is at least one half. */
  lemma FirstDecimalRule(num: real)
    ensures ((num - num.Floor as real) * 10.0).Floor > 4 <==> num - num.Floor as real >= 0.5
  {
    var f := num - num.Floor as real;
    var d := (f * 10.0).Floor;
    assert d as real <= f * 10.0 < d as real + 1.0;
  }

  /** `myround` is the clamped half-up rounding `max(0, floor(num + 1/2))`. */
  lemma MyRoundIsHalfUp(num: real)
    ensures MyRound(num) == if (num + 0.5).Floor < 0 then 0 else (num + 0.5).Floor
  {
    if num >= 0.5 {
      assert MyRound(num) as real <= num + 0.5 < MyRound(num) as real + 1.0;
    }
  }

  /** Rounding is monotone: a larger input never rounds lower. */
  lemma MyRoundMonotone(a: real, b: real)
    requires a <= b
    ensures MyRound(a) <= MyRound(b)
  {
    MyRoundIsHalfUp(a);
    MyRoundIsHalfUp(b);
  }

  /** An integer-valued input is returned unchanged, clamped at zero. */
  lemma MyRoundOfInteger(n: int)
    ensures MyRound(n as real) == if n < 0 then 0 else n
  {
    MyRoundIsHalfUp(n as real);
  }

  /** Python's `int(x)` on a float: truncation toward zero. */
  function PyInt(x: real): (r: int)
    ensures x >= 0.0 ==> r as real <= x < r as real + 1.0
    ensures x < 0.0 ==> r as real - 1.0 < x <= r as real
  {
    if x >= 0.0 then x.Floor else -((-x).Floor)
  }

  /** Python's `a // b` on floats with a positive divisor. */
  function FloorDiv(a: real, b: real): (k: int)
    requires b > 0.0
    ensures k as real * b <= a < (k as real + 1.0) * b
  {
    var q := a / b;
    var k := q.Floor;
    assert q * b == a;
    assert k as real <= q < k as real + 1.0;
    MulMonotone(k as real, q, b);
    MulStrict(q, k as real + 1.0, b);
    assert a < (k as real + 1.0) * b;
    k
  }

  lemma MulMonotone(x: real, y: real, b: real)
    requires x <= y && b > 0.0
    ensures x * b <= y * b
  {
  }

  lemma MulStrict(x: real, y: real, b: real)
    requires x < y && b > 0.0
    ensures x * b < y * b
  {
  }
}
