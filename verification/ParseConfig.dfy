/** The guard in cmd/bench/main.go that restates NewAtomicTokenBucket's bounds, so that a bad
    command line is a diagnostic and not a panic. */
module ParseConfigs {
  import opened AtomicStates
  import Limits

  /** Restated in main.go, apart from the constructor's own constant. */
  const MAX_ATOMIC_BUCKET_SPAN_NANOS: int := 0x4000_0000_0000_0000

  datatype Rejection = RateNotPositive | CapacityBelowOne | RateTooHigh | SpanPastLimit

  /** The checks parseConfig makes on -rate and -capacity when atomic is the algorithm; on success,
      the emission interval it computed. Go only specifies the conversion of the period to int64
      while the period fits. */
  function CheckAtomic(rate: real, capacity: int): Result<int, Rejection>
    requires rate > 0.0 ==> IsInt64(Period(rate))
  {
    if rate <= 0.0 then Err(Rejection.RateNotPositive)
    else if capacity < 1 then Err(CapacityBelowOne)
    else
      var nanosPerToken := Period(rate);
      if nanosPerToken < 1 then Err(RateTooHigh)
      else if capacity > MAX_ATOMIC_BUCKET_SPAN_NANOS / nanosPerToken then Err(SpanPastLimit)
      else Ok(nanosPerToken)
  }

  /** Which diagnostic a command line gets. */
  lemma RejectionsAreExact(rate: real, capacity: int)
    requires IsInt64(capacity) && (rate > 0.0 ==> IsInt64(Period(rate)))
    ensures CheckAtomic(rate, capacity) == Err(Rejection.RateNotPositive) <==> rate <= 0.0
    ensures CheckAtomic(rate, capacity) == Err(CapacityBelowOne) <==> rate > 0.0 && capacity < 1
    ensures CheckAtomic(rate, capacity) == Err(RateTooHigh) <==> rate > 2000000000.0 && capacity >= 1
    ensures CheckAtomic(rate, capacity) == Err(SpanPastLimit) <==>
            0.0 < rate <= 2000000000.0 && capacity >= 1
            && capacity * Period(rate) > MAX_ATOMIC_BUCKET_SPAN_NANOS
  {
    if rate > 0.0 {
      ResolutionBound(rate);
      if Period(rate) >= 1 {
        SpanFits(capacity, Period(rate));
      }
    }
  }

  /** The two sides have not drifted: with a capacity of at least one, the guard accepts exactly
      what the constructor accepts without panicking, and computes the interval it will store. */
  lemma GuardMatchesConstructor(rate: real, capacity: int)
    requires IsInt64(capacity) && (rate > 0.0 ==> IsInt64(Period(rate)))
    ensures CheckAtomic(rate, capacity).Ok? <==> capacity >= 1 && Configure(rate, capacity).Ok?
    ensures CheckAtomic(rate, capacity).Ok? ==>
              CheckAtomic(rate, capacity).value == Configure(rate, capacity).value.nanosPerToken
  {
    if rate > 0.0 && Period(rate) >= 1 {
      var period := Period(rate);
      ConfigureIsExact(rate, capacity);
      if capacity >= 1 {
        SpanFits(capacity, period);
        Limits.ProductOrder(1, capacity, period);
      }
    }
  }
}
