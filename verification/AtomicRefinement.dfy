/** Storing time refines counting tokens: the one-word bucket makes the decisions of an exact token
    bucket whose rate is one unit per stored period. */
module AtomicRefinements {
  import opened Runs
  import opened AtomicStates
  import Limits
  import TB = TokenBuckets

  /** The token bucket a configuration stands for: 1e9 / T units per second, no slack. */
  function Tokens(c: Config): TB.Params
    requires Valid(c)
  {
    TB.Params(Limits.NANOS_PER_SECOND / c.nanosPerToken as real, c.capacity as real, 0.0)
  }

  /** The credit, in nanoseconds, that the word stands for at time t. */
  function Credit(c: Config, vt: int, t: int): int {
    if t - vt < c.capT then t - vt else c.capT
  }

  /** The level counts the credit in units of one period; with no capacity it never moves. */
  predicate CountsCredit(c: Config, vt: int, level: TB.Level, t: int) {
    && level.last == t && 0 <= t && vt <= t
    && (if c.capacity >= 0 then Counts(c, level.tokens, Credit(c, vt, t)) else level.tokens == c.capacity as real)
  }

  /** tokens units of one period each are ns nanoseconds. */
  predicate Counts(c: Config, tokens: real, ns: int) {
    tokens * c.nanosPerToken as real == ns as real
  }

  lemma AccruedInPeriods(c: Config, elapsed: int)
    requires Valid(c)
    ensures Limits.Accrued(elapsed, Tokens(c).rate) * c.nanosPerToken as real == elapsed as real
    ensures elapsed >= 0 ==> Limits.Accrued(elapsed, Tokens(c).rate) >= 0.0
  {
    Cancel(elapsed as real, Limits.NANOS_PER_SECOND, c.nanosPerToken as real);
  }

  lemma Cancel(x: real, second: real, period: real)
    requires second > 0.0 && period > 0.0
    ensures x / second * (second / period) * period == x
    ensures x >= 0.0 ==> x / second * (second / period) >= 0.0
  {
    var r := second / period;
    assert r * period == second;
    assert x / second * r * period == x / second * (r * period);
  }

  /** Multiplying by the period keeps order, both ways. */
  lemma ScaledOrder(a: real, b: real, period: real)
    requires period > 0.0
    ensures a <= b <==> a * period <= b * period
  {
    assert (b - a) * period == b * period - a * period;
  }

  /** Adding and clamping in units is adding and clamping in nanoseconds. */
  lemma ClampScales(tokens: real, accrued: real, capacity: real, period: real, held: real, more: real, full: real)
    requires period > 0.0 && more >= 0.0
    requires tokens * period == Limits.Min(full, held) && accrued * period == more && capacity * period == full
    ensures Limits.Min(capacity, tokens + accrued) * period == Limits.Min(full, held + more)
  {
    assert (tokens + accrued) * period == tokens * period + accrued * period;
    ScaledOrder(capacity, tokens + accrued, period);
  }

  lemma CreditGrows(c: Config, vt: int, tokens: real, accrued: real, t: int, t': int)
    requires Valid(c) && c.capacity >= 0 && t <= t'
    requires Counts(c, tokens, Credit(c, vt, t)) && Counts(c, accrued, t' - t)
    ensures Counts(c, Limits.Min(c.capacity as real, tokens + accrued), Credit(c, vt, t'))
  {
    ClampScales(tokens, accrued, c.capacity as real, c.nanosPerToken as real,
                (t - vt) as real, (t' - t) as real, c.capT as real);
  }

  /** Refilling the counter at t' credits it with the word's credit at t'. */
  lemma RefillIsCredit(c: Config, vt: int, level: TB.Level, t: int, t': int)
    requires Valid(c) && CountsCredit(c, vt, level, t) && t <= t' && c.capacity >= 0
    ensures Counts(c, TB.Refill(Tokens(c), level, t'), Credit(c, vt, t'))
  {
    AccruedInPeriods(c, t' - t);
    CreditGrows(c, vt, level.tokens, Limits.Accrued(t' - t, Tokens(c).rate), t, t');
  }

  /** Spending n units is spending n periods, and can be done when the other can. */
  lemma SpendCounts(c: Config, tokens: real, ns: int, n: int)
    requires Valid(c) && Counts(c, tokens, ns)
    ensures tokens >= n as real <==> ns >= n * c.nanosPerToken
    ensures Counts(c, tokens - n as real, ns - n * c.nanosPerToken)
  {
    var period := c.nanosPerToken as real;
    assert (n * c.nanosPerToken) as real == n as real * period;
    ScaledOrder(n as real, tokens, period);
    assert (tokens - n as real) * period == tokens * period - n as real * period;
  }

  /** A call on the word spends its credit at the reading, if there is enough. */
  lemma StepSpendsCredit(c: Config, vt: int, call: Call)
    requires Valid(c) && c.capacity >= 0 && call.n > 0 && 0 <= call.now && vt <= call.now
    ensures var o, cost := Step(c, vt, call), call.n * c.nanosPerToken;
      && (o.ok <==> Credit(c, vt, call.now) >= cost)
      && o.state <= call.now
      && Credit(c, o.state, call.now) == Credit(c, vt, call.now) - if o.ok then cost else 0
  {
    Limits.ProductOrder(1, call.n, c.nanosPerToken);
    if c.capacity >= 1 {
      BatchSpends(c, vt, call.n, call.now);
    }
  }

  lemma StepRefines(c: Config, vt: int, level: TB.Level, t: int, call: Call)
    requires Valid(c) && CountsCredit(c, vt, level, t) && Readable(t, call)
    ensures var o, o' := Step(c, vt, call), TB.Step(Tokens(c), level, call);
      o.ok == o'.ok && CountsCredit(c, o.state, o'.state, After(t, call))
  {
    if call.n > 0 {
      var refilled := TB.Refill(Tokens(c), level, call.now);
      assert Limits.AdmitEpsilon(call.n as real, 0.0) == 0.0;
      if c.capacity >= 0 {
        RefillIsCredit(c, vt, level, t, call.now);
        StepSpendsCredit(c, vt, call);
        SpendCounts(c, refilled, Credit(c, vt, call.now), call.n);
      } else {
        AccruedInPeriods(c, call.now - t);
      }
    }
  }

  /** For every run of batches at readings that do not decrease, at any capacity, the two buckets
      return the same verdicts, and the counter reads min(capT, now - vt) / T after every call. */
  lemma StoringTimeRefinesTokens(c: Config, calls: seq<Call>)
    requires Valid(c) && Ordered(calls, 0)
    ensures Verdicts(Policy(c), FullAt(c), calls) == Verdicts(TB.Policy(Tokens(c)), TB.Full(Tokens(c), 0), calls)
    ensures CountsCredit(c, Final(Policy(c), FullAt(c), calls),
                       Final(TB.Policy(Tokens(c)), TB.Full(Tokens(c), 0), calls), LastReading(calls, 0))
  {
    var f, g := Policy(c), TB.Policy(Tokens(c));
    var rel := (vt, level, t) => CountsCredit(c, vt, level, t);
    forall vt, level, t, call | rel(vt, level, t) && Readable(t, call)
      ensures f(vt, call).ok == g(level, call).ok && rel(f(vt, call).state, g(level, call).state, After(t, call))
    {
      StepRefines(c, vt, level, t, call);
    }
    assert c.capacity >= 0 ==> c.capacity as real * c.nanosPerToken as real == c.capT as real;
    SameVerdicts(f, g, rel, FullAt(c), TB.Full(Tokens(c), 0), 0, calls);
  }

  /** With the clock stopped, Allow grants exactly the capacity. */
  lemma FrozenClock(c: Config, now: nat, calls: seq<Call>)
    requires Valid(c) && c.capacity >= 0 && Frozen(calls, now)
    ensures CountTrue(Verdicts(Policy(c), FullAt(c), calls)) == if |calls| <= c.capacity then |calls| else c.capacity
  {
    FrozenIsOrdered(calls, now, 0);
    StoringTimeRefinesTokens(c, calls);
    AccruedInPeriods(c, now);
    TB.FrozenClock(Tokens(c), TB.Full(Tokens(c), 0), c.capacity, now, calls);
  }
}
