/**
  The tolerance the test suite grants the ledger's lazily maintained total
  weight when it compares it with the expected total weight (the sum of
  every position's amount times its multiplier). The actual total may fall
  short of the expected one by at most 4 percent, and may exceed it by
  less than one MATURITY_PRECISION unit.

  The oracle throws when one of its two expectations fails; the outcome
  records which one threw first. On success it returns the shortfall in
  whole percent, `100 - precision`.
 */
module WeightTolerance {
  import opened FixedPoint
  import opened Maturity

  datatype Verdict =
    | Passed(shortfall: int)
    | ErrorCheckFailed       // the error, in whole tokens rounded toward zero, is -1 or less
    | PrecisionCheckFailed   // actual * 100 / expected, rounded down, is 95 or less

  /** `(expected - actual).div(MATURITY_PRECISION) > -1`, with BigNumber's rounding toward zero. */
  predicate ErrorCheck(expected: nat, actual: nat)
  {
    TruncDiv(expected - actual, MATURITY_PRECISION) > -1
  }

  /** `actual * 100 / expected`: the actual total as a whole percentage of the expected one. */
  function Precision(expected: nat, actual: nat): (r: int)
    requires expected > 0
  {
    TruncDiv(actual * 100, expected)
  }

  /**
    The oracle's verdict on an actual total weight. It passes exactly when the
    actual total is at least 96 percent of the expected one and less than one
    MATURITY_PRECISION unit above it; the shortfall it then returns is the
    missing percentage rounded up, at most 4.
   */
  function TestError(expected: nat, actual: nat): (r: Verdict)
    requires expected > 0
    ensures r.ErrorCheckFailed? <==> actual >= expected + MATURITY_PRECISION
    ensures r.Passed? <==> 96 * expected <= 100 * actual && actual < expected + MATURITY_PRECISION
    ensures r.Passed? ==>
      && r.shortfall <= 4
      && (100 - r.shortfall) * expected <= 100 * actual < (101 - r.shortfall) * expected
  {
    ErrorCheckExact(expected, actual);
    PrecisionCheckExact(expected, actual);
    var precision := Precision(expected, actual);
    if !ErrorCheck(expected, actual) then ErrorCheckFailed
    else if !(precision > 95) then PrecisionCheckFailed
    else Passed(100 - precision)
  }

  /** The error check fails exactly when the actual total reaches one token above the expected one. */
  lemma ErrorCheckExact(expected: nat, actual: nat)
    ensures ErrorCheck(expected, actual) <==> actual < expected + MATURITY_PRECISION
  {
    var error := expected - actual;
    var q := TruncDiv(error, MATURITY_PRECISION);
    if error < 0 && q > -1 {
      assert q == 0;
    }
    if error < 0 && -(MATURITY_PRECISION as int) < error {
      CancelLess(-1, q, MATURITY_PRECISION);
    }
  }

  /**
    With the percentage rounded down, "more than 95 percent" is exactly
    "at least 96 percent".
   */
  lemma PrecisionCheckExact(expected: nat, actual: nat)
    requires expected > 0
    ensures Precision(expected, actual) > 95 <==> 96 * expected <= 100 * actual
    ensures (100 * actual) / expected == Precision(expected, actual)
  {
    QuotientAbove(Precision(expected, actual), 95, actual * 100, expected);
  }

  /** A quotient rounded down exceeds `k` exactly when the dividend reaches `(k + 1)` divisors. */
  lemma QuotientAbove(q: int, k: int, a: int, b: int)
    requires b > 0 && q * b <= a < q * b + b
    ensures q > k <==> (k + 1) * b <= a
  {
    if q > k {
      MulLe(k + 1, q, b);
    }
    if (k + 1) * b <= a {
      assert (k + 1) * b < (q + 1) * b;
      CancelLess(k + 1, q + 1, b);
    }
  }

  /**
    The accepted actual totals form one interval of integers, from
    96 percent of the expected total rounded up to one MATURITY_PRECISION
    unit above it, exclusive.
   */
  lemma AcceptedInterval(expected: nat, actual: nat)
    requires expected > 0
    ensures TestError(expected, actual).Passed?
        <==> (96 * expected + 99) / 100 <= actual <= expected + MATURITY_PRECISION - 1
  {
    var low := (96 * expected + 99) / 100;
    assert 100 * low <= 96 * expected + 99 < 100 * low + 100;
    if 96 * expected <= 100 * actual {
      assert low <= actual;
    }
    if low <= actual {
      assert 96 * expected <= 100 * actual;
    }
  }

  /** An exact match passes with no shortfall. */
  lemma ExactMatchPasses(expected: nat)
    requires expected > 0
    ensures TestError(expected, expected) == Passed(0)
  {
    PrecisionCheckExact(expected, expected);
    TruncDivUnique(expected * 100, expected, 100);
  }
}
