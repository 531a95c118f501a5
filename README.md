# Maturity arithmetic of the maturity-weighted position ledger

The ledger gives each deposit position a weight: its amount times a maturity
multiplier. The multiplier starts at 1.0x when the position is entered and grows
linearly by 1.0x every `MATURITY_INCREMENT` (42 days). It stays at 3.0x from two
increments on. When balance is added to a position, or one position is merged
into another, the position gets a new entry time computed from the two entries
and the two amounts. The ledger keeps a running total weight, and the test suite
checks it against the exact sum within a fixed tolerance.

This project models the integer fixed-point arithmetic that the repository's test
suite uses as its oracle for all of this, and proves its properties:

- `FixedPoint` (`fixed_point.dfy`): BigNumber's `div`, which rounds toward zero.
  Dafny's `/` rounds toward negative infinity when the divisor is positive.
- `Maturity` (`maturity.dfy`): the constants `MATURITY_PRECISION`,
  `MATURITY_INCREMENT` and `ENTRY_CALCULATION_PRECISION`; `multiplier` as
  `Multiplier`; `calculateNewEntry` as `CalculateNewEntry`; and the expected
  total weight of a set of positions, as the tests sum it, as `TotalWeight`.
- `WeightTolerance` (`weight_tolerance.dfy`): `testError`, the acceptance test
  for the ledger's total weight, as `TestError`. It returns a `Verdict`: the
  expectation that threw first, or `Passed(100 - precision)`.

Timestamps, amounts and weights are unsigned 256-bit values on chain, and they
are `nat` here. No value in the oracle comes near 2^256, so wrap-around is not
modelled. A position's age `now - entry` is an `int`. An entry later than `now`
gives a negative age, and the oracle then divides a negative number, rounding
toward zero. `Multiplier` reproduces that rounding.

A weight-preserving average would weight the position's old entry by `oldAmount`
and `now` by the added amount. `calculateNewEntry` does something else. It gives
the later of the two entries the weight `oldAmount`, and the earlier one the
weight `newAmount`, whichever argument each entry came from
(`CalculateNewEntryApproximatesAverage`). In the increase call at
test/functional_tests.js:246 the earlier entry is the position's old entry. So
the fresh balance pulls the entry back toward the old entry. This model follows
the code, and no weight-conservation property is claimed for it.

## Model

| member | source | states |
|---|---|---|
| `FixedPoint.TruncDiv` | test/test_helpers.js:15 | the BigNumber quotient: `q * b` lies between 0 and the dividend, within one divisor of it, so the quotient is rounded toward zero for either sign |
| `Maturity.Multiplier` | test/helpers.js:69-74 | the multiplier is exactly 3.0x from two increments of age on; below that it is `P` plus `age * P / MATURITY_INCREMENT` rounded toward zero: rounded down for a non-negative age, rounded up for a negative age |
| `Maturity.MultiplierAtEntry` | test/helpers.js:73 | a position observed at its own entry time has multiplier exactly `MATURITY_PRECISION` |
| `Maturity.MultiplierAfterOneIncrement` | test/helpers.js:73 | exactly one `MATURITY_INCREMENT` after entry the multiplier is exactly `2 * MATURITY_PRECISION` |
| `Maturity.MultiplierBounds` | test/helpers.js:69-74 | for `entry <= now` the multiplier lies in `[P, 3P]`, and it equals `3P` if and only if the age is at least `2 * MATURITY_INCREMENT` |
| `Maturity.MultiplierMonotone` | test/helpers.js:70-73 | an older position never has a smaller multiplier: non-decreasing in `now`, non-increasing in `entry` |
| `Maturity.CalculateNewEntry` | test/helpers.js:76-82 | the new entry lies between the earlier and the later of the two entries, whenever the summed amount is positive |
| `Maturity.CalculateNewEntrySymmetric` | test/helpers.js:77-78 | swapping `oldEntry` and `newEntry` does not change the result |
| `Maturity.CalculateNewEntryKeepsLater` | test/helpers.js:79 | with `newAmount == 0`, or with equal entries, the result is the later entry |
| `Maturity.CalculateNewEntryApproximatesAverage` | test/helpers.js:76-82 | the result is within one second of the rational value `(later * oldAmount + earlier * newAmount) / (oldAmount + newAmount)`, and exceeds it by less than `1 / ENTRY_CALCULATION_PRECISION` |
| `Maturity.CalculateNewEntryAntitone` | test/helpers.js:79 | the result is non-increasing as `newAmount` grows |
| `Maturity.IncreaseHalfwayScenario` | test/functional_tests.js:246 | one token increased by one token half an increment after an entry at 0 gets entry exactly `MATURITY_INCREMENT / 4` |
| `Maturity.FreshPositionWeight` | test/functional_tests.js:61-65 | a fresh deposit weighs `amount * MATURITY_PRECISION` |
| `Maturity.TotalWeightAllCapped` | test/heavy_entries_update_tests.js:134-138 | when every position is at least two increments old, the expected total weight is `3 * MATURITY_PRECISION` times the total amount |
| `Maturity.TotalWeightBounds` | test/functional_tests.js:77-81 | when no entry is after `now`, the expected total weight lies between 1.0x and 3.0x the total amount |
| `Maturity.TotalWeightMonotone` | test/functional_tests.js:77-81 | the expected total weight never decreases as time passes |
| `WeightTolerance.TestError` | test/test_helpers.js:11-25 | the error check fails exactly when `actual >= expected + P`. The verdict passes exactly when `96 * expected <= 100 * actual` and `actual < expected + P`. A pass returns a shortfall of at most 4, which is the missing percentage rounded up |
| `WeightTolerance.ErrorCheckExact` | test/test_helpers.js:14-21 | `error.div(P) > -1`, with rounding toward zero, holds exactly when `actual < expected + P` |
| `WeightTolerance.PrecisionCheckExact` | test/test_helpers.js:18-22 | `actual * 100 / expected > 95` holds exactly when `100 * actual >= 96 * expected`; BigNumber's quotient here equals Dafny's |
| `WeightTolerance.AcceptedInterval` | test/test_helpers.js:14-22 | the accepted actual totals are exactly the integers from `ceil(96 * expected / 100)` to `expected + P - 1` |
| `WeightTolerance.ExactMatchPasses` | test/test_helpers.js:18-24 | an exact match (`actual == expected > 0`) passes with shortfall 0 |

Here `P` is `MATURITY_PRECISION` (10^18).

## Left out

- The asynchronous wrappers in test/helpers.js:11-67 (`increaseTime`, `mintAndDeposit`, `mintAndDepositTo`, `mint`, `depositAll`, `increase`, `split`, `merge`, `withdraw`, `withdrawAll`, `sync`) are left out. They are JSON-RPC calls into a deployed contract.
- The ledger contract is not part of this model. That covers its lazy accumulator, its maturity index, and its token and NFT bookkeeping. Its source is not in the repository, and it is observed only through the tests.
- The test drivers (test/functional_tests.js, test/deposits_and_weights_tests.js, test/heavy_entries_update_tests.js) are left out: they are random data, RPC calls and logging. Some of their assertions are stated above as lemmas.
- The deployment fixtures (test/fixtures.js) and the Hardhat configuration (hardhat.config.js) are left out. They are deployment plumbing.
- `Math.max` and `Math.min` turn BigNumbers into JavaScript numbers (test/helpers.js:77-78), a BigNumber is compared with a number (test/helpers.js:72), and `100 - precision` turns a BigNumber into a number (test/test_helpers.js:24). All three are modelled as exact integer operations. They agree with the JavaScript for values below 2^53 in magnitude; the last one can differ only when `expected` is below about 1.1e4, and the oracle only logs that value.
- Division by zero throws in BigNumber. So `CalculateNewEntry` requires `oldAmount + newAmount > 0`, and `TestError` requires `expected > 0`. Those are the inputs on which the division does not throw.
- `console.log` and the chai/chai-bn plumbing in `testError` are left out. A failed expectation is modelled as the verdict `ErrorCheckFailed` or `PrecisionCheckFailed`, in the order the expectations run.
- `TotalWeight` sums the positions of a sequence. The tests sum a sparse array with `for … in`, and the order does not affect the sum.
