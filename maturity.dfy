/**
  The maturity arithmetic that the test suite uses as its oracle for the
  maturity-weighted position ledger: the multiplier a position earns from its
  age, the entry time a position gets when balance is added to it or another
  position is merged into it, and the weight of a collection of positions.

  Timestamps, amounts and weights are unsigned on chain and are `nat` here.
  A position's age `now - entry` is an `int`: the oracle accepts an entry
  later than `now` and then divides a negative number, rounding toward zero.
 */
module Maturity {
  import opened FixedPoint

  /** Fixed-point scale of a multiplier: 1.0x is MATURITY_PRECISION. */
  const MATURITY_PRECISION: nat := 1_000_000_000_000_000_000
  /** Seconds for the multiplier to grow by 1.0x: 42 days. */
  const MATURITY_INCREMENT: nat := 3_628_800
  /** Fixed-point scale used while averaging two entry times. */
  const ENTRY_CALCULATION_PRECISION: nat := 1_000_000_000_000_000_000

  function Max(a: nat, b: nat): (r: nat) { if a >= b then a else b }
  function Min(a: nat, b: nat): (r: nat) { if a >= b then b else a }

  /**
    Multiplier of a position entered at `entry`, observed at `now`, scaled by
    MATURITY_PRECISION: 1.0x at entry, growing linearly by 1.0x every
    MATURITY_INCREMENT seconds, capped at 3.0x from two increments on.
    Below the cap it is MATURITY_PRECISION plus
    `age * MATURITY_PRECISION / MATURITY_INCREMENT` rounded toward zero.
   */
  function Multiplier(entry: nat, now: nat): (r: int)
    ensures now - entry >= 2 * MATURITY_INCREMENT ==> r == 3 * MATURITY_PRECISION
    ensures 0 <= now - entry < 2 * MATURITY_INCREMENT ==>
      (r - MATURITY_PRECISION) * MATURITY_INCREMENT <= (now - entry) * MATURITY_PRECISION
      < (r - MATURITY_PRECISION + 1) * MATURITY_INCREMENT
    ensures now - entry < 0 ==>
      (r - MATURITY_PRECISION - 1) * MATURITY_INCREMENT < (now - entry) * MATURITY_PRECISION
      <= (r - MATURITY_PRECISION) * MATURITY_INCREMENT
  {
    var maturity := now - entry;
    if maturity >= 2 * MATURITY_INCREMENT then 3 * MATURITY_PRECISION
    else TruncDiv(maturity * MATURITY_PRECISION, MATURITY_INCREMENT) + MATURITY_PRECISION
  }

  /** A fresh position (observed at its own entry time) has multiplier exactly 1.0x. */
  lemma MultiplierAtEntry(entry: nat)
    ensures Multiplier(entry, entry) == MATURITY_PRECISION
  {
  }

  /** One increment after entry the multiplier is exactly 2.0x. */
  lemma MultiplierAfterOneIncrement(entry: nat)
    ensures Multiplier(entry, entry + MATURITY_INCREMENT) == 2 * MATURITY_PRECISION
  {
  }

  /**
    For a position that is not from the future the multiplier lies in
    [1.0x, 3.0x], and it equals the cap 3.0x exactly when the position is at
    least two increments old.
   */
  lemma MultiplierBounds(entry: nat, now: nat)
    ensures entry <= now ==> MATURITY_PRECISION <= Multiplier(entry, now) <= 3 * MATURITY_PRECISION
    ensures Multiplier(entry, now) == 3 * MATURITY_PRECISION <==> now - entry >= 2 * MATURITY_INCREMENT
  {
  }

  /**
    The multiplier only grows with age: it is non-decreasing in `now` and
    non-increasing in `entry`.
   */
  lemma MultiplierMonotone(entry1: nat, now1: nat, entry2: nat, now2: nat)
    requires now1 - entry1 <= now2 - entry2
    ensures Multiplier(entry1, now1) <= Multiplier(entry2, now2)
  {
    var m1, m2 := now1 - entry1, now2 - entry2;
    if m2 < 2 * MATURITY_INCREMENT {
      TruncDivMonotone(m1 * MATURITY_PRECISION, m2 * MATURITY_PRECISION, MATURITY_INCREMENT);
    }
  }

  /**
    Entry time of a position after `newAmount` joins a position holding
    `oldAmount`, the two entries being `oldEntry` and `newEntry`. The later
    of the two entries is pulled toward the earlier one by the fraction
    newAmount / (oldAmount + newAmount) of their distance, computed at
    ENTRY_CALCULATION_PRECISION and rounded toward zero. The result always
    lies between the two entries.
   */
  function CalculateNewEntry(oldAmount: nat, newAmount: nat, oldEntry: nat, newEntry: nat): (r: int)
    requires oldAmount + newAmount > 0
    ensures Min(oldEntry, newEntry) <= r <= Max(oldEntry, newEntry)
  {
    var later := Max(oldEntry, newEntry);
    var entryDiff := later - Min(oldEntry, newEntry);
    var shift := TruncDiv(entryDiff * newAmount * ENTRY_CALCULATION_PRECISION, oldAmount + newAmount);
    ShiftAtMostDiff(oldAmount, newAmount, entryDiff);
    BetweenEntries(later, entryDiff, shift);
    TruncDiv(later * ENTRY_CALCULATION_PRECISION - shift, ENTRY_CALCULATION_PRECISION)
  }

  /** The fixed-point shift never exceeds the distance between the entries. */
  lemma ShiftAtMostDiff(oldAmount: nat, newAmount: nat, entryDiff: nat)
    requires oldAmount + newAmount > 0
    ensures var shift := TruncDiv(entryDiff * newAmount * ENTRY_CALCULATION_PRECISION, oldAmount + newAmount);
      0 <= shift <= entryDiff * ENTRY_CALCULATION_PRECISION
  {
    var s := oldAmount + newAmount;
    var d := entryDiff * ENTRY_CALCULATION_PRECISION;
    var x := entryDiff * newAmount * ENTRY_CALCULATION_PRECISION;
    var shift := TruncDiv(x, s);
    assert x == d * newAmount;
    assert d * s - x == d * oldAmount;
    assert x <= d * s;
    CancelLess(shift, d + 1, s);
  }

  /** Scaling down a value between two scaled entries lands between those entries. */
  lemma BetweenEntries(later: nat, entryDiff: nat, shift: int)
    requires entryDiff <= later
    requires 0 <= shift <= entryDiff * ENTRY_CALCULATION_PRECISION
    ensures later - entryDiff
      <= TruncDiv(later * ENTRY_CALCULATION_PRECISION - shift, ENTRY_CALCULATION_PRECISION)
      <= later
  {
    var e := ENTRY_CALCULATION_PRECISION;
    var n := later * e - shift;
    assert (later - entryDiff) * e <= n <= later * e;
    TruncDivMonotone((later - entryDiff) * e, n, e);
    TruncDivMonotone(n, later * e, e);
    TruncDivExact(later - entryDiff, e);
    TruncDivExact(later, e);
  }

  /**
    The new entry depends on the two entries only through which is later
    and which is earlier: exchanging them gives the same result.
   */
  lemma CalculateNewEntrySymmetric(oldAmount: nat, newAmount: nat, oldEntry: nat, newEntry: nat)
    requires oldAmount + newAmount > 0
    ensures CalculateNewEntry(oldAmount, newAmount, oldEntry, newEntry)
         == CalculateNewEntry(oldAmount, newAmount, newEntry, oldEntry)
  {
  }

  /** Adding nothing, or joining two equal entries, keeps the later entry. */
  lemma CalculateNewEntryKeepsLater(oldAmount: nat, newAmount: nat, oldEntry: nat, newEntry: nat)
    requires oldAmount + newAmount > 0
    requires newAmount == 0 || oldEntry == newEntry
    ensures CalculateNewEntry(oldAmount, newAmount, oldEntry, newEntry) == Max(oldEntry, newEntry)
  {
    TruncDivExact(Max(oldEntry, newEntry), ENTRY_CALCULATION_PRECISION);
  }

  /**
    The new entry is within one second of the exact rational average
    (later * oldAmount + earlier * newAmount) / (oldAmount + newAmount),
    and above it by less than 1 / ENTRY_CALCULATION_PRECISION.
    The later entry is weighted by `oldAmount` whichever argument it came
    from, so this is not the balance-weighted average of the entries.
   */
  lemma CalculateNewEntryApproximatesAverage(oldAmount: nat, newAmount: nat, oldEntry: nat, newEntry: nat)
    requires oldAmount + newAmount > 0
    ensures var r := CalculateNewEntry(oldAmount, newAmount, oldEntry, newEntry);
      var s := oldAmount + newAmount;
      var w := Max(oldEntry, newEntry) * oldAmount + Min(oldEntry, newEntry) * newAmount;
      && (r - 1) * s < w < (r + 1) * s
      && r * s * ENTRY_CALCULATION_PRECISION < w * ENTRY_CALCULATION_PRECISION + s
  {
    var e := ENTRY_CALCULATION_PRECISION;
    var s := oldAmount + newAmount;
    var later, earlier := Max(oldEntry, newEntry), Min(oldEntry, newEntry);
    var diff := later - earlier;
    var x := diff * newAmount * e;
    assert 0 <= x by { assert 0 <= diff * newAmount; }
    var shift := TruncDiv(x, s);
    ShiftAtMostDiff(oldAmount, newAmount, diff);
    var n := later * e - shift;
    AverageBand(later, earlier, oldAmount, newAmount, e, shift, TruncDiv(n, e));
  }

  /**
    The arithmetic behind the previous lemma, over plain integers: `shift` is
    `diff * n * e / s` rounded down and `r` is `(later * e - shift) / e`
    rounded down.
   */
  lemma AverageBand(later: int, earlier: int, o: nat, n: nat, e: int, shift: int, r: int)
    requires o + n > 0 && e > 0
    requires shift * (o + n) <= (later - earlier) * n * e < shift * (o + n) + (o + n)
    requires r * e <= later * e - shift < r * e + e
    ensures var s := o + n; var w := later * o + earlier * n;
      && (r - 1) * s < w < (r + 1) * s
      && r * s * e < w * e + s
  {
    var s := o + n;
    var w := later * o + earlier * n;
    AverageBandLower(later, earlier, o, n, e, shift, r);
    AverageBandUpper(later, earlier, o, n, e, shift, r);
    var rs := r * s;
    assert rs * e < w * e + s;
    MulLe(1, e, s);
    assert w * e + s <= (w + s) * e;
    CancelLess(rs, w + s, e);
    assert (r - 1) * s == rs - s;
  }

  /** Scaling the rational average by `e` expands it into the terms the oracle computes. */
  lemma ScaledAverage(later: int, earlier: int, o: int, n: int, e: int)
    ensures (later * o + earlier * n) * e == later * e * (o + n) - (later - earlier) * n * e
  {
  }

  lemma AverageBandLower(later: int, earlier: int, o: nat, n: nat, e: int, shift: int, r: int)
    requires o + n > 0 && e > 0
    requires shift * (o + n) <= (later - earlier) * n * e
    requires later * e - shift < r * e + e
    ensures later * o + earlier * n < (r + 1) * (o + n)
  {
    var s := o + n;
    var w := later * o + earlier * n;
    var scaled := later * e - shift;
    ScaledAverage(later, earlier, o, n, e);
    MulLess(scaled, (r + 1) * e, s);
    assert scaled * s == later * e * s - shift * s;
    assert ((r + 1) * e) * s == ((r + 1) * s) * e;
    assert w * e < ((r + 1) * s) * e;
    CancelLess(w, (r + 1) * s, e);
  }

  lemma AverageBandUpper(later: int, earlier: int, o: nat, n: nat, e: int, shift: int, r: int)
    requires o + n > 0 && e > 0
    requires (later - earlier) * n * e < shift * (o + n) + (o + n)
    requires r * e <= later * e - shift
    ensures r * (o + n) * e < (later * o + earlier * n) * e + (o + n)
  {
    var s := o + n;
    var scaled := later * e - shift;
    ScaledAverage(later, earlier, o, n, e);
    MulLe(r * e, scaled, s);
    assert scaled * s == later * e * s - shift * s;
    assert (r * e) * s == r * s * e;
  }

  /** The more balance joins, the further back the entry is pulled. */
  lemma CalculateNewEntryAntitone(oldAmount: nat, newAmount1: nat, newAmount2: nat, oldEntry: nat, newEntry: nat)
    requires oldAmount + newAmount1 > 0 && newAmount1 <= newAmount2
    ensures CalculateNewEntry(oldAmount, newAmount2, oldEntry, newEntry)
         <= CalculateNewEntry(oldAmount, newAmount1, oldEntry, newEntry)
  {
    var e := ENTRY_CALCULATION_PRECISION;
    var later := Max(oldEntry, newEntry);
    var diff := later - Min(oldEntry, newEntry);
    var d := diff * e;
    var x1, x2 := diff * newAmount1 * e, diff * newAmount2 * e;
    assert x1 == d * newAmount1 && x2 == d * newAmount2;
    var shift1 := TruncDiv(x1, oldAmount + newAmount1);
    var shift2 := TruncDiv(x2, oldAmount + newAmount2);
    ShiftMonotone(d, oldAmount, newAmount1, newAmount2, shift1, shift2);
    TruncDivMonotone(later * e - shift2, later * e - shift1, e);
  }

  /**
    The arithmetic behind the previous lemma: `d * n / (o + n)` rounded down
    does not decrease as `n` grows.
   */
  lemma ShiftMonotone(d: nat, o: nat, n1: nat, n2: nat, shift1: int, shift2: int)
    requires o + n1 > 0 && n1 <= n2
    requires shift1 * (o + n1) <= d * n1
    requires d * n2 < shift2 * (o + n2) + (o + n2)
    ensures shift1 <= shift2
  {
    ShareGrows(d, o, n1, n2);
    TransferBound(shift1, o + n1, o + n2, d * n1, d * n2);
    CancelLess(shift1, shift2 + 1, o + n2);
  }

  /** The share n / (o + n) of `d` grows with `n`, multiplied out. */
  lemma ShareGrows(d: nat, o: nat, n1: nat, n2: nat)
    requires n1 <= n2
    ensures (d * n1) * (o + n2) <= (d * n2) * (o + n1)
  {
    assert n1 * (o + n2) == n1 * o + n1 * n2;
    assert n2 * (o + n1) == n2 * o + n1 * n2;
    MulLe(n1, n2, o);
    MulLe(n1 * (o + n2), n2 * (o + n1), d);
    assert (d * n1) * (o + n2) == (n1 * (o + n2)) * d;
    assert (d * n2) * (o + n1) == (n2 * (o + n1)) * d;
  }

  /** If q <= x1 / s1 and x1 / s1 <= x2 / s2, then q <= x2 / s2, multiplied out. */
  lemma TransferBound(q: int, s1: int, s2: nat, x1: int, x2: int)
    requires s1 > 0 && q * s1 <= x1 && x1 * s2 <= x2 * s1
    ensures q * s2 <= x2
  {
    MulLe(q * s1, x1, s2);
    assert (q * s2) * s1 == (q * s1) * s2;
    assert (q * s2) * s1 < (x2 + 1) * s1;
    CancelLess(q * s2, x2 + 1, s1);
  }

  /** Raising a position by its own balance halfway through the first increment sets its entry to a quarter increment. */
  lemma IncreaseHalfwayScenario()
    ensures CalculateNewEntry(MATURITY_PRECISION, MATURITY_PRECISION, 0, MATURITY_INCREMENT / 2)
         == MATURITY_INCREMENT / 4
  {
    TruncDivExact(MATURITY_INCREMENT / 4, ENTRY_CALCULATION_PRECISION);
  }

  /** A position as the oracle tracks it: deposited amount and entry time. */
  datatype Position = Position(amount: nat, entry: nat)

  /** Weight of one position at time `now`. */
  function Weight(p: Position, now: nat): (r: int)
  {
    p.amount * Multiplier(p.entry, now)
  }

  /** Sum of the amounts of the positions. */
  function TotalAmount(ps: seq<Position>): (r: nat)
  {
    if ps == [] then 0 else TotalAmount(ps[..|ps| - 1]) + ps[|ps| - 1].amount
  }

  /** Expected total weight at `now`: the sum of every position's weight. */
  function TotalWeight(ps: seq<Position>, now: nat): (r: int)
  {
    if ps == [] then 0 else TotalWeight(ps[..|ps| - 1], now) + Weight(ps[|ps| - 1], now)
  }

  /** A fresh deposit weighs its amount at 1.0x. */
  lemma FreshPositionWeight(p: Position)
    ensures Weight(p, p.entry) == p.amount * MATURITY_PRECISION
  {
    MultiplierAtEntry(p.entry);
  }

  /** When every position is at the cap, the total weight is 3.0x the total amount. */
  lemma {:induction false} TotalWeightAllCapped(ps: seq<Position>, now: nat)
    requires forall i :: 0 <= i < |ps| ==> now - ps[i].entry >= 2 * MATURITY_INCREMENT
    ensures TotalWeight(ps, now) == 3 * MATURITY_PRECISION * TotalAmount(ps)
  {
    if ps != [] {
      var init := ps[..|ps| - 1];
      assert forall i :: 0 <= i < |init| ==> init[i] == ps[i];
      TotalWeightAllCapped(init, now);
    }
  }

  /** When no position is from the future, the total weight lies between 1.0x and 3.0x the total amount. */
  lemma {:induction false} TotalWeightBounds(ps: seq<Position>, now: nat)
    requires forall i :: 0 <= i < |ps| ==> ps[i].entry <= now
    ensures MATURITY_PRECISION * TotalAmount(ps) <= TotalWeight(ps, now)
         <= 3 * MATURITY_PRECISION * TotalAmount(ps)
  {
    if ps != [] {
      var init, last := ps[..|ps| - 1], ps[|ps| - 1];
      assert forall i :: 0 <= i < |init| ==> init[i] == ps[i];
      TotalWeightBounds(init, now);
      MultiplierBounds(last.entry, now);
      var m := Multiplier(last.entry, now);
      MulLe(MATURITY_PRECISION, m, last.amount);
      MulLe(m, 3 * MATURITY_PRECISION, last.amount);
    }
  }

  /** The total weight never decreases as time passes. */
  lemma {:induction false} TotalWeightMonotone(ps: seq<Position>, now1: nat, now2: nat)
    requires now1 <= now2
    ensures TotalWeight(ps, now1) <= TotalWeight(ps, now2)
  {
    if ps != [] {
      var last := ps[|ps| - 1];
      TotalWeightMonotone(ps[..|ps| - 1], now1, now2);
      MultiplierMonotone(last.entry, now1, last.entry, now2);
      MulLe(Multiplier(last.entry, now1), Multiplier(last.entry, now2), last.amount);
    }
  }
}
