/** The parts of limiter.go that every limiter shares: the relative admission slack, and the
    exact-real reading of "elapsed.Seconds() * rate" that the refill and leak expressions use. */
module Limits {

  /** The relative slack the code uses. The theorems hold for any slack in [0, 1). */
  const ADMIT_EPSILON_REL: real := 0.000000001

  const NANOS_PER_SECOND: real := 1000000000.0

  /** The slack granted against a limit (a batch size when spending, a capacity when filling). */
  function AdmitEpsilon(limit: real, rel: real): real {
    limit * rel
  }

  /** Units accrued (or leaked) over a span of nanoseconds at a rate per second. */
  function Accrued(elapsed: int, rate: real): real {
    elapsed as real / NANOS_PER_SECOND * rate
  }

  function Min(a: real, b: real): real {
    if a <= b then a else b
  }

  function Max(a: real, b: real): real {
    if a >= b then a else b
  }

  /** Accrual over adjacent spans adds up, and never runs backwards at a rate >= 0. */
  lemma AccruedComposes(a: int, b: int, rate: real)
    ensures Accrued(a + b, rate) == Accrued(a, rate) + Accrued(b, rate)
    ensures rate >= 0.0 && b >= 0 ==> Accrued(b, rate) >= 0.0
  {
    var x, y := a as real / NANOS_PER_SECOND, b as real / NANOS_PER_SECOND;
    assert (a + b) as real / NANOS_PER_SECOND == x + y;
    assert (x + y) * rate == x * rate + y * rate;
  }

  /** Over a span of time the sign of what accrues is that of the rate. */
  lemma AccruedSign(elapsed: nat, rate: real)
    ensures rate >= 0.0 ==> Accrued(elapsed, rate) >= 0.0
    ensures rate <= 0.0 ==> Accrued(elapsed, rate) <= 0.0
  {
    var x := elapsed as real / NANOS_PER_SECOND;
    assert x >= 0.0;
    if rate >= 0.0 {
      assert x * rate >= 0.0;
    } else {
      assert x * -rate >= 0.0;
    }
  }

  /** What a span of time adds, or drains, at most: nothing at a negative rate. */
  function Gained(elapsed: int, rate: real): real {
    Max(0.0, Accrued(elapsed, rate))
  }

  lemma GainedComposes(a: nat, b: nat, rate: real)
    ensures Gained(a + b, rate) == Gained(a, rate) + Gained(b, rate)
  {
    AccruedComposes(a, b, rate);
    AccruedSign(a, rate);
    AccruedSign(b, rate);
  }

  /** A factor that is not negative keeps order. */
  lemma ScaleBounds(x: real, a: real, b: real)
    requires x >= 0.0 && a <= b
    ensures x * a <= x * b
  {
    assert x * (b - a) >= 0.0;
    assert x * (b - a) == x * b - x * a;
  }

  /** A positive factor keeps the sign. */
  lemma SignOfProduct(a: real, b: real)
    requires b > 0.0
    ensures a * b > 0.0 <==> a > 0.0
    ensures a * b >= 0.0 <==> a >= 0.0
  {
  }

  /** Integer multiples compare as their factors do. */
  lemma ProductOrder(a: int, b: int, t: int)
    requires a <= b && t >= 0
    ensures a * t <= b * t
  {
    assert (b - a) * t >= 0;
    assert (b - a) * t == b * t - a * t;
  }
}
