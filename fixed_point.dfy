/**
  Integer division as the test oracle performs it: BigNumber's `div`
  rounds toward zero, whereas Dafny's `/` on `int` is Euclidean (it rounds
  toward negative infinity for a positive divisor). Every divisor the
  oracle uses is positive, so the divisor is required to be positive.
 */
module FixedPoint {

  /** Quotient of `a` by `b`, rounded toward zero. */
  function TruncDiv(a: int, b: int): (q: int)
    requires b > 0
    ensures 0 <= a ==> 0 <= q && q * b <= a < q * b + b
    ensures a < 0 ==> q <= 0 && a <= q * b < a + b
  {
    if a >= 0 then a / b else -((-a) / b)
  }

  /** Multiplying both sides of a strict inequality by a positive factor can be undone. */
  lemma CancelLess(x: int, y: int, b: int)
    requires b > 0 && x * b < y * b
    ensures x < y
  {
  }

  /** Multiplying both sides of an inequality by a non-negative factor keeps it. */
  lemma MulLe(x: int, y: int, c: int)
    requires c >= 0 && x <= y
    ensures x * c <= y * c
  {
  }

  /** Multiplying both sides of a strict inequality by a positive factor keeps it. */
  lemma MulLess(x: int, y: int, c: int)
    requires c > 0 && x < y
    ensures x * c < y * c
  {
  }

  /** The quotient is determined by the rounding band it lies in (non-negative case). */
  lemma TruncDivUnique(a: int, b: int, q: int)
    requires b > 0 && 0 <= a && q * b <= a < q * b + b
    ensures TruncDiv(a, b) == q
  {
    var t := TruncDiv(a, b);
    CancelLess(t, q + 1, b);
    CancelLess(q, t + 1, b);
  }

  /** Rounding toward zero preserves the order of dividends. */
  lemma {:induction false} TruncDivMonotone(a1: int, a2: int, b: int)
    requires b > 0 && a1 <= a2
    ensures TruncDiv(a1, b) <= TruncDiv(a2, b)
  {
    var q1, q2 := TruncDiv(a1, b), TruncDiv(a2, b);
    if 0 <= a1 {
      CancelLess(q1, q2 + 1, b);
    } else if a2 < 0 {
      CancelLess(q1, q2 + 1, b);
    }
  }

  /** An exact multiple of the divisor divides without rounding, whatever its sign. */
  lemma TruncDivExact(k: int, b: int)
    requires b > 0
    ensures TruncDiv(k * b, b) == k
  {
    var q := TruncDiv(k * b, b);
    if 0 <= k * b {
      CancelLess(q, k + 1, b);
      CancelLess(k, q + 1, b);
    } else {
      CancelLess(k, q + 1, b);
      CancelLess(q, k + 1, b);
    }
  }
}
