/**
 * Facts about dividing a stretch of virtual time into whole timer periods.
 * A repeating timer with period `d` that has already been pending for part of
 * a period fires once for every whole period contained in the elapsed time;
 * these lemmas pin down that count, `(x / d).Floor`, and the time left over.
 */
module VirtualClock {

  /** The number of whole periods of length `d` contained in `x`. */
  function Periods(x: real, d: real): (k: nat)
    requires x >= 0.0 && d > 0.0
    ensures k as real * d <= x < (k + 1) as real * d
  {
    var q := x / d;
    assert q * d == x;
    var n := q.Floor;
    assert n as real <= q < n as real + 1.0;
    MulMonotone(n as real, q, d);
    MulStrict(q, n as real + 1.0, d);
    assert x < (n as real + 1.0) * d;
    assert (n + 1) as real * d == (n as real + 1.0) * d;
    assert n as real * d <= x < (n + 1) as real * d;
    assert n >= 0;
    n
  }

  /** Scaling by a positive period keeps order. */
  lemma MulMonotone(a: real, b: real, d: real)
    requires a <= b && d > 0.0
    ensures a * d <= b * d
  {
  }

  /** Scaling by a positive period keeps strict order. */
  lemma MulStrict(a: real, b: real, d: real)
    requires a < b && d > 0.0
    ensures a * d < b * d
  {
  }

  /** Two counts whose multiples bracket the same `x` from below and above are ordered. */
  lemma BelowNext(a: real, b: real, x: real, d: real)
    requires a * d <= x < b * d && d > 0.0
    ensures a < b
  {
    if b <= a {
      MulMonotone(b, a, d);
    }
  }

  /** Whole periods are unique: any `k` that brackets `x` is the count. */
  lemma {:induction false} PeriodsUnique(x: real, d: real, k: int)
    requires x >= 0.0 && d > 0.0
    requires k as real * d <= x < (k + 1) as real * d
    ensures Periods(x, d) == k
  {
    var p := Periods(x, d);
    BelowNext(p as real, (k + 1) as real, x, d);
    BelowNext(k as real, (p + 1) as real, x, d);
  }

  /** The time left in the current period after the whole periods in `x`. */
  function Remainder(x: real, d: real): (r: real)
    requires x >= 0.0 && d > 0.0
    ensures 0.0 <= r < d
    ensures Periods(x, d) as real * d + r == x
  {
    x - Periods(x, d) as real * d
  }

  /** Counting periods over `x + y` is counting over `x`, then over its remainder plus `y`. */
  lemma {:induction false} PeriodsAdditive(x: real, y: real, d: real)
    requires x >= 0.0 && y >= 0.0 && d > 0.0
    ensures Periods(x + y, d) == Periods(x, d) + Periods(Remainder(x, d) + y, d)
    ensures Remainder(x + y, d) == Remainder(Remainder(x, d) + y, d)
  {
    var k1 := Periods(x, d);
    var r1 := Remainder(x, d);
    var k2 := Periods(r1 + y, d);
    var r2 := Remainder(r1 + y, d);
    assert (k1 + k2) as real * d == k1 as real * d + k2 as real * d;
    assert (k1 + k2 + 1) as real * d == k1 as real * d + (k2 + 1) as real * d;
    PeriodsUnique(x + y, d, k1 + k2);
  }
}
