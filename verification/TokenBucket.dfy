/** tokenbucket.go: the mutex-guarded token bucket, the sequential reference the two CAS buckets
    are compared with. Floating point is modelled by exact reals; a call's clock reading is an
    argument, and holding the mutex makes a call one atomic step. */
module TokenBuckets {
  import opened Limits
  import opened Runs

  datatype Params = Params(rate: real, capacity: real, eps: real)

  datatype Level = Level(tokens: real, last: int)

  /** The bucket starts full. */
  function Full(p: Params, now: int): Level {
    Level(p.capacity, now)
  }

  /** The level after crediting the time since the last recomputation, clamped to capacity. */
  function Refill(p: Params, s: Level, now: int): real {
    Min(p.capacity, s.tokens + Accrued(now - s.last, p.rate))
  }

  /** The admission test of the spending buckets. */
  predicate Covers(p: Params, tokens: real, n: int) {
    tokens + AdmitEpsilon(n as real, p.eps) >= n as real
  }

  /** AllowN: refill, then spend the whole batch or nothing. A denial keeps the refill. */
  function Step(p: Params, s: Level, c: Call): Outcome<Level> {
    if c.n <= 0 then Outcome(s, true) else
    var tokens := Refill(p, s, c.now);
    if Covers(p, tokens, c.n) then Outcome(Level(tokens - c.n as real, c.now), true)
    else Outcome(Level(tokens, c.now), false)
  }

  function Policy(p: Params): (Level, Call) -> Outcome<Level> {
    (s, c) => Step(p, s, c)
  }

  class TokenBucket {
    var tokens: real
    var last: int
    const rate: real
    const capacity: real

    function Config(): Params {
      Params(rate, capacity, ADMIT_EPSILON_REL)
    }

    function State(): Level
      reads this
    {
      Level(tokens, last)
    }

    constructor (rate: real, capacity: int, now: int)
      ensures Config() == Params(rate, capacity as real, ADMIT_EPSILON_REL)
      ensures State() == Full(Config(), now)
    {
      this.tokens := capacity as real;
      this.rate := rate;
      this.capacity := capacity as real;
      this.last := now;
    }

    method Allow(now: int) returns (ok: bool)
      modifies this
      ensures Outcome(State(), ok) == Step(Config(), old(State()), Call(1, now))
    {
      ok := AllowN(1, now);
    }

    method AllowN(n: int, now: int) returns (ok: bool)
      modifies this
      ensures Outcome(State(), ok) == Step(Config(), old(State()), Call(n, now))
    {
      if n <= 0 {
        return true;
      }
      var elapsed := now - last;
      tokens := Min(capacity, tokens + Accrued(elapsed, rate));
      last := now;
      if tokens + AdmitEpsilon(n as real, ADMIT_EPSILON_REL) >= n as real {
        tokens := tokens - n as real;
        return true;
      }
      return false;
    }
  }

  /** Refilling in two stages is refilling once: the clamp composes over intermediate times. At a
      negative rate, where the level falls with time, it does from any level that is not clamped. */
  lemma RefillComposes(p: Params, s: Level, mid: int, now: int)
    requires (p.rate >= 0.0 || s.tokens <= p.capacity) && s.last <= mid <= now
    ensures Refill(p, Level(Refill(p, s, mid), mid), now) == Refill(p, s, now)
  {
    AccruedComposes(mid - s.last, now - mid, p.rate);
    AccruedSign(mid - s.last, p.rate);
    assert (mid - s.last) + (now - mid) == now - s.last;
  }

  /** late has had the same grants as early but may have been refilled at times early was not. */
  predicate SameCredit(p: Params, late: Level, early: Level, t: int) {
    && late.last == t && early.last <= t
    && late.tokens == Refill(p, early, t) && early.tokens <= p.capacity
  }

  lemma SameCreditAbsorbs(p: Params)
    ensures AbsorbsDenials(Policy(p), (s, r, t) => SameCredit(p, s, r, t))
  {
    forall s, r, t, c | SameCredit(p, s, r, t) && Readable(t, c)
      ensures Policy(p)(s, c).ok == Policy(p)(r, c).ok
      ensures SameCredit(p, Policy(p)(s, c).state,
                         if Policy(p)(s, c).ok then Policy(p)(r, c).state else r, After(t, c))
    {
      if c.n > 0 {
        RefillComposes(p, r, t, c.now);
        assert s == Level(Refill(p, r, t), t);
      }
    }
  }

  /** Deleting every denied call from an ordered run leaves all other verdicts as they were. */
  lemma DeniedCallsInvisible(p: Params, origin: int, calls: seq<Call>)
    requires Ordered(calls, origin)
    ensures var kept := GrantedBy(Policy(p), Full(p, origin), calls);
      && false !in Verdicts(Policy(p), Full(p, origin), kept)
      && SameCredit(p, Final(Policy(p), Full(p, origin), calls), Final(Policy(p), Full(p, origin), kept),
                    LastReading(calls, origin))
  {
    SameCreditAbsorbs(p);
    DenialsInvisible(Policy(p), (s, r, t) => SameCredit(p, s, r, t), Full(p, origin), Full(p, origin), origin, calls);
  }

  /** Conservation over any stretch of a run, at any rate and any readings: what is granted plus
      what is left never exceeds what was there plus what accrued. */
  lemma {:induction false} GrantedPlusLeft(p: Params, s: Level, calls: seq<Call>)
    ensures var end := Final(Policy(p), s, calls);
      && Units(GrantedBy(Policy(p), s, calls)) as real + end.tokens <= s.tokens + Accrued(end.last - s.last, p.rate)
      && end.last == LastReading(calls, s.last)
    decreases |calls|
  {
    AccruedComposes(0, 0, p.rate);
    if calls != [] {
      var o := Step(p, s, calls[0]);
      assert Policy(p)(s, calls[0]) == o;
      GrantedPlusLeft(p, o.state, calls[1..]);
      GrantedCons(Policy(p), s, calls, 0);
      AccruedComposes(o.state.last - s.last, Final(Policy(p), s, calls).last - o.state.last, p.rate);
    }
  }

  /** The debt: the level never falls below eps of the largest batch granted so far. */
  lemma {:induction false} DebtBounded(p: Params, s: Level, m: nat, calls: seq<Call>)
    requires p.rate >= 0.0 && p.capacity >= 0.0 && p.eps >= 0.0
    requires Ordered(calls, s.last) && s.tokens >= -AdmitEpsilon(m as real, p.eps)
    ensures Final(Policy(p), s, calls).tokens
            >= -AdmitEpsilon(LargestBatch(GrantedBy(Policy(p), s, calls), m) as real, p.eps)
    decreases |calls|
  {
    if calls != [] {
      var c := calls[0];
      var o := Step(p, s, c);
      var m' := if o.ok && c.n > m then c.n else m;
      assert Policy(p)(s, c) == o;
      AccruedComposes(0, c.now - s.last, p.rate);
      DebtGrowsWithBatch(m, m', p.eps);
      if o.ok && c.n > 0 {
        DebtGrowsWithBatch(c.n, m', p.eps);
      }
      DebtBounded(p, o.state, m', calls[1..]);
      GrantedCons(Policy(p), s, calls, m);
    }
  }

  lemma DebtGrowsWithBatch(m: nat, m': nat, eps: real)
    requires m <= m' && eps >= 0.0
    ensures AdmitEpsilon(m as real, eps) <= AdmitEpsilon(m' as real, eps)
    ensures AdmitEpsilon(m as real, eps) >= 0.0
  {
    assert (m' as real - m as real) * eps >= 0.0;
  }

  /** The most a run can be granted from a level: that, what time adds, and one debt. */
  function Allowance(p: Params, tokens: real, elapsed: int, largest: nat): real {
    tokens + Gained(elapsed, p.rate) + AdmitEpsilon(largest as real, p.eps)
  }

  /** Over any stretch of a run the last grant was covered, and with it all before. */
  lemma {:induction false} GrantsAreCovered(p: Params, s: Level, m: nat, calls: seq<Call>)
    requires p.eps >= 0.0 && Ordered(calls, s.last)
    ensures var granted, end := GrantedBy(Policy(p), s, calls), LastReading(calls, s.last);
      && s.last <= end && m <= LargestBatch(granted, m)
      && (Units(granted) == 0
          || Units(granted) as real <= Allowance(p, s.tokens, end - s.last, LargestBatch(granted, m)))
    decreases |calls|
  {
    if calls != [] {
      var c := calls[0];
      var o := Step(p, s, c);
      var m' := if o.ok && c.n > m then c.n else m;
      assert Policy(p)(s, c) == o;
      GrantsAreCovered(p, o.state, m', calls[1..]);
      GrantedCons(Policy(p), s, calls, m);
      GainedComposes(o.state.last - s.last, LastReading(calls, s.last) - o.state.last, p.rate);
      if o.ok && c.n > 0 {
        DebtGrowsWithBatch(c.n, LargestBatch(GrantedBy(Policy(p), s, calls), m), p.eps);
      }
    }
  }

  /** The slack is a debt bounded once for the bucket's lifetime, not once per call. */
  lemma LifetimeBound(p: Params, origin: int, calls: seq<Call>)
    requires p.eps >= 0.0 && Ordered(calls, origin)
    ensures var granted := GrantedBy(Policy(p), Full(p, origin), calls);
      Units(granted) as real
      <= Max(0.0, Allowance(p, p.capacity, LastReading(calls, origin) - origin, LargestBatch(granted, 0)))
  {
    GrantsAreCovered(p, Full(p, origin), 0, calls);
  }

  /** With the clock stopped, Allow grants exactly the whole tokens that are there. */
  lemma {:induction false} FrozenClock(p: Params, s: Level, tokens: nat, now: int, calls: seq<Call>)
    requires 0.0 <= p.eps < 1.0
    requires Refill(p, s, now) == tokens as real && Frozen(calls, now)
    ensures CountTrue(Verdicts(Policy(p), s, calls)) == if |calls| <= tokens then |calls| else tokens
    decreases |calls|
  {
    if calls != [] {
      var o := Step(p, s, calls[0]);
      assert calls[0] == Call(1, now);
      assert Policy(p)(s, calls[0]) == o;
      assert forall i :: 0 <= i < |calls[1..]| ==> calls[1..][i] == calls[i + 1];
      AccruedComposes(0, 0, p.rate);
      assert AdmitEpsilon(1 as real, p.eps) == p.eps;
      assert o.ok <==> tokens >= 1;
      FrozenClock(p, o.state, if o.ok then tokens - 1 else tokens, now, calls[1..]);
      assert Verdicts(Policy(p), s, calls)[1..] == Verdicts(Policy(p), o.state, calls[1..]);
    }
  }

  /** A full bucket admits a batch larger than its capacity. */
  ghost predicate AdmitsOversized(p: Params, capacity: nat, origin: int) {
    exists n :: n > capacity && Step(p, Full(p, origin), Call(n, origin)).ok
  }

  /** The slack is below any whole unit exactly while it is for a batch of one more than the
      capacity: at eps = 1e-9, below a capacity of 10^9 - 1. */
  lemma OversizedBatchIff(p: Params, capacity: nat, origin: int)
    requires 0.0 <= p.eps < 1.0 && p.capacity == capacity as real
    ensures AdmitsOversized(p, capacity, origin) <==> AdmitEpsilon(p.capacity + 1.0, p.eps) >= 1.0
  {
    AccruedComposes(0, 0, p.rate);
    assert Refill(p, Full(p, origin), origin) == p.capacity;
    if AdmitEpsilon(p.capacity + 1.0, p.eps) >= 1.0 {
      assert (capacity + 1) as real == p.capacity + 1.0;
      assert Step(p, Full(p, origin), Call(capacity + 1, origin)).ok;
    }
    if AdmitsOversized(p, capacity, origin) {
      var n :| n > capacity && Step(p, Full(p, origin), Call(n, origin)).ok;
      assert Covers(p, p.capacity, n);
      LargerNeedsMore(p.capacity, n as real, p.eps);
    }
  }

  lemma LargerNeedsMore(capacity: real, n: real, eps: real)
    requires 0.0 <= eps < 1.0 && n >= capacity + 1.0 && capacity + AdmitEpsilon(n, eps) >= n
    ensures AdmitEpsilon(capacity + 1.0, eps) >= 1.0
  {
    var more := n - (capacity + 1.0);
    SignOfProduct(more, 1.0 - eps);
    assert more * (1.0 - eps) == n - n * eps - (capacity + 1.0) + (capacity + 1.0) * eps;
  }

  /** No burst from full, of batches of any size, is granted more than the capacity. */
  ghost predicate BurstsWithinCapacity(p: Params, capacity: nat, origin: int) {
    forall calls | AtInstant(calls, origin) :: Units(GrantedBy(Policy(p), Full(p, origin), calls)) <= capacity
  }

  /** While the slack stays below a unit, a level of whole tokens covers no batch that is larger. */
  lemma WholeTokensCover(p: Params, tokens: nat, n: int)
    requires 0.0 <= p.eps < 1.0 && tokens as real <= p.capacity && AdmitEpsilon(p.capacity + 1.0, p.eps) < 1.0
    ensures Covers(p, tokens as real, n) ==> n <= tokens
  {
    if Covers(p, tokens as real, n) && n > tokens {
      LargerNeedsMore(tokens as real, n as real, p.eps);
      ScaleBounds(p.eps, tokens as real + 1.0, p.capacity + 1.0);
    }
  }

  lemma SpendsWholeTokens(p: Params, s: Level, tokens: nat, c: Call)
    requires 0.0 <= p.eps < 1.0 && AdmitEpsilon(p.capacity + 1.0, p.eps) < 1.0
    requires s.tokens == tokens as real <= p.capacity && c.now == s.last
    ensures var o := Step(p, s, c);
      var spent := if o.ok && c.n > 0 then c.n else 0;
      spent <= tokens && o.state == Level((tokens - spent) as real, s.last)
  {
    AccruedComposes(0, 0, p.rate);
    WholeTokensCover(p, tokens, c.n);
  }

  lemma {:induction false} BurstSpendsWhatIsThere(p: Params, s: Level, tokens: nat, calls: seq<Call>)
    requires 0.0 <= p.eps < 1.0 && AdmitEpsilon(p.capacity + 1.0, p.eps) < 1.0
    requires s.tokens == tokens as real <= p.capacity && AtInstant(calls, s.last)
    ensures Units(GrantedBy(Policy(p), s, calls)) <= tokens
    decreases |calls|
  {
    if calls != [] {
      var c, o := calls[0], Step(p, s, calls[0]);
      assert Policy(p)(s, c) == o && c.now == s.last;
      assert forall i :: 0 <= i < |calls[1..]| ==> calls[1..][i] == calls[i + 1];
      SpendsWholeTokens(p, s, tokens, c);
      BurstSpendsWhatIsThere(p, o.state, if o.ok && c.n > 0 then tokens - c.n else tokens, calls[1..]);
      GrantedCons(Policy(p), s, calls, 0);
    }
  }

  /** A burst can only pass the capacity by a batch that does so alone. */
  lemma BurstWithinCapacityIff(p: Params, capacity: nat, origin: int)
    requires 0.0 <= p.eps < 1.0 && p.capacity == capacity as real
    ensures BurstsWithinCapacity(p, capacity, origin) <==> AdmitEpsilon(p.capacity + 1.0, p.eps) < 1.0
  {
    if AdmitEpsilon(p.capacity + 1.0, p.eps) < 1.0 {
      forall calls | AtInstant(calls, origin)
        ensures Units(GrantedBy(Policy(p), Full(p, origin), calls)) <= capacity
      {
        BurstSpendsWhatIsThere(p, Full(p, origin), capacity, calls);
      }
    } else {
      OversizedBatchIff(p, capacity, origin);
      var n :| n > capacity && Step(p, Full(p, origin), Call(n, origin)).ok;
      var calls := [Call(n, origin)];
      GrantedCons(Policy(p), Full(p, origin), calls, 0);
      assert AtInstant(calls, origin) && Units(GrantedBy(Policy(p), Full(p, origin), calls)) >= n;
    }
  }
  // ---------------------------------------------------------------- the exact verdict

  /** A level of tokens at one reading still covers units granted since, and x more, at a reading so
      many nanoseconds later. */
  predicate Pays(p: Params, tokens: real, units: int, x: real, nanos: int) {
    units as real + x <= tokens + p.rate * nanos as real / 1000000000.0
  }

  /** From each call on, what was granted and x more is covered by a full bucket at that call and by
      what the rate has added since. */
  predicate PaysSinceEach(p: Params, calls: seq<Call>, oks: seq<bool>, x: real, now: int)
    requires |oks| == |calls|
  {
    calls != [] ==>
      && (calls[0].n > 0 ==> Pays(p, p.capacity, Units(Granted(calls, oks)), x, now - calls[0].now))
      && PaysSinceEach(p, calls[1..], oks[1..], x, now)
  }

  /** There is room for x at a reading, after a run from a level at an earlier one. */
  predicate HasRoom(p: Params, tokens: real, origin: int, calls: seq<Call>, oks: seq<bool>, x: real, now: int)
    requires |oks| == |calls|
  {
    && x <= p.capacity
    && Pays(p, tokens, Units(Granted(calls, oks)), x, now - origin)
    && PaysSinceEach(p, calls, oks, x, now)
  }

  /** The rule of a token bucket, stated without its level: a batch less its slack has to fit into
      the capacity, and with all that was granted since the origin, or since any earlier call, into
      the capacity and what the rate has added since then. */
  predicate Admits(p: Params, origin: int, calls: seq<Call>, oks: seq<bool>, c: Call) {
    c.n <= 0
    || (|oks| == |calls| && HasRoom(p, p.capacity, origin, calls, oks, c.n as real * (1.0 - p.eps), c.now))
  }

  function TokenRule(p: Params, origin: int): Rule {
    (calls, oks, c) => Admits(p, origin, calls, oks, c)
  }

  lemma PaysIsAccrual(p: Params, tokens: real, units: int, x: real, nanos: int)
    ensures Pays(p, tokens, units, x, nanos) <==> Holds(tokens, units, x, Accrued(nanos, p.rate))
  {
    assert nanos as real / NANOS_PER_SECOND * p.rate == p.rate * nanos as real / 1000000000.0;
  }

  predicate Holds(tokens: real, units: int, x: real, accrued: real) {
    units as real + x <= tokens + accrued
  }

  /** One call puts two bounds on the level after it in place of one: that of before, and the clamp. */
  lemma CallBounds(p: Params, s: Level, c: Call, units: int, x: real, now: int)
    requires c.n > 0
    ensures var o := Step(p, s, c);
      var spent := if o.ok then c.n else 0;
      Pays(p, o.state.tokens, units, x, now - o.state.last)
      <==> Pays(p, s.tokens, spent + units, x, now - s.last) && Pays(p, p.capacity, spent + units, x, now - c.now)
  {
    var o := Step(p, s, c);
    var spent := if o.ok then c.n else 0;
    PaysIsAccrual(p, o.state.tokens, units, x, now - c.now);
    PaysIsAccrual(p, s.tokens, spent + units, x, now - s.last);
    PaysIsAccrual(p, p.capacity, spent + units, x, now - c.now);
    AccruedComposes(c.now - s.last, now - c.now, p.rate);
  }

  /** The level at a reading is the least of these bounds. */
  lemma {:induction false} LevelIsTheLeastBound(p: Params, s: Level, calls: seq<Call>, x: real, now: int)
    ensures x <= Refill(p, Final(Policy(p), s, calls), now)
            <==> HasRoom(p, s.tokens, s.last, calls, Verdicts(Policy(p), s, calls), x, now)
    decreases |calls|
  {
    if calls == [] {
      PaysIsAccrual(p, s.tokens, 0, x, now - s.last);
    } else {
      var c, o := calls[0], Step(p, s, calls[0]);
      assert Policy(p)(s, c) == o;
      LevelIsTheLeastBound(p, o.state, calls[1..], x, now);
      assert Verdicts(Policy(p), s, calls)[1..] == Verdicts(Policy(p), o.state, calls[1..]);
      GrantedCons(Policy(p), s, calls, 0);
      if c.n > 0 {
        CallBounds(p, s, c, Units(GrantedBy(Policy(p), o.state, calls[1..])), x, now);
      }
    }
  }

  lemma CoversIsRoom(p: Params, tokens: real, n: int)
    ensures Covers(p, tokens, n) <==> n as real * (1.0 - p.eps) <= tokens
  {
    assert n as real * (1.0 - p.eps) == n as real - n as real * p.eps;
  }

  lemma AdmitsIsRoom(p: Params, origin: int, calls: seq<Call>, oks: seq<bool>, c: Call)
    requires c.n > 0 && |oks| == |calls|
    ensures Admits(p, origin, calls, oks, c)
            <==> HasRoom(p, p.capacity, origin, calls, oks, c.n as real * (1.0 - p.eps), c.now)
  {
  }

  lemma CoveredIsRoom(p: Params, origin: int, calls: seq<Call>, oks: seq<bool>, x: real, now: int)
    requires oks == Verdicts(Policy(p), Full(p, origin), calls)
    ensures x <= Refill(p, Final(Policy(p), Full(p, origin), calls), now)
            <==> HasRoom(p, p.capacity, origin, calls, oks, x, now)
  {
    LevelIsTheLeastBound(p, Full(p, origin), calls, x, now);
  }

  lemma StepCovers(p: Params, s: Level, c: Call)
    requires c.n > 0
    ensures Step(p, s, c).ok <==> c.n as real * (1.0 - p.eps) <= Refill(p, s, c.now)
  {
    CoversIsRoom(p, Refill(p, s, c.now), c.n);
  }

  lemma DecidesByTheRule(p: Params, origin: int, calls: seq<Call>, oks: seq<bool>, c: Call)
    requires oks == Verdicts(Policy(p), Full(p, origin), calls)
    ensures Step(p, Final(Policy(p), Full(p, origin), calls), c).ok == Admits(p, origin, calls, oks, c)
  {
    if c.n > 0 {
      AdmitsIsRoom(p, origin, calls, oks, c);
      CoveredIsRoom(p, origin, calls, oks, c.n as real * (1.0 - p.eps), c.now);
      StepCovers(p, Final(Policy(p), Full(p, origin), calls), c);
    }
  }

  /** The verdicts of every run, at any rate, slack and readings, are those of the rule, and no others. */
  lemma VerdictsAreExact(p: Params, origin: int, calls: seq<Call>, oks: seq<bool>)
    requires |oks| == |calls|
    ensures oks == Verdicts(Policy(p), Full(p, origin), calls) <==> Obeys(TokenRule(p, origin), calls, oks)
  {
    forall i | 0 <= i < |calls|
      ensures Policy(p)(Final(Policy(p), Full(p, origin), calls[..i]), calls[i]).ok
              == TokenRule(p, origin)(calls[..i], Verdicts(Policy(p), Full(p, origin), calls[..i]), calls[i])
    {
      DecidesByTheRule(p, origin, calls[..i], Verdicts(Policy(p), Full(p, origin), calls[..i]), calls[i]);
    }
    OnlyVerdictsObey(Policy(p), Full(p, origin), TokenRule(p, origin), calls, oks);
  }
}
