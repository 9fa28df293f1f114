/** leakybucket.go: the mutex-guarded leaky bucket. The level starts at zero, drains at the rate,
    and an admitted batch pours in; it is the dual of the token bucket. */
module LeakyBuckets {
  import opened Limits
  import opened Runs
  import TokenBuckets

  type Params = TokenBuckets.Params

  datatype Water = Water(level: real, last: int)

  function Empty(now: int): Water {
    Water(0.0, now)
  }

  /** The level after draining. A product that is not positive (rate <= 0) drains nothing. */
  function Drain(p: Params, s: Water, now: int): real {
    var leaked := Accrued(now - s.last, p.rate);
    if leaked > 0.0 then Max(0.0, s.level - leaked) else s.level
  }

  /** The most the level may reach: the capacity and the slack granted against it. */
  function Brim(p: Params): real {
    p.capacity + AdmitEpsilon(p.capacity, p.eps)
  }

  /** AllowN: drain, then pour the whole batch or nothing. A denial keeps the drained level. */
  function Step(p: Params, s: Water, c: Call): Outcome<Water> {
    if c.n <= 0 then Outcome(s, true) else
    var level := Drain(p, s, c.now);
    if level + c.n as real <= Brim(p) then Outcome(Water(level + c.n as real, c.now), true)
    else Outcome(Water(level, c.now), false)
  }

  function Policy(p: Params): (Water, Call) -> Outcome<Water> {
    (s, c) => Step(p, s, c)
  }

  class LeakyBucket {
    var level: real
    var last: int
    const rate: real
    const capacity: real

    function Config(): Params {
      TokenBuckets.Params(rate, capacity, ADMIT_EPSILON_REL)
    }

    function State(): Water
      reads this
    {
      Water(level, last)
    }

    constructor (rate: real, capacity: int, now: int)
      ensures Config() == TokenBuckets.Params(rate, capacity as real, ADMIT_EPSILON_REL)
      ensures State() == Empty(now)
    {
      this.level := 0.0;
      this.rate := rate;
      this.capacity := capacity as real;
      this.last := now;
    }

    method Allow(now: int) returns (ok: bool)
      modifies this
      ensures Outcome(State(), ok) == Step(Config(), old(State()), Call(1, now))
    {
      ok := AllowN(1, now);
    }

    method AllowN(n: int, now: int) returns (ok: bool)
      modifies this
      ensures Outcome(State(), ok) == Step(Config(), old(State()), Call(n, now))
    {
      if n <= 0 {
        return true;
      }
      var elapsed := now - last;
      var leaked := Accrued(elapsed, rate);
      if leaked > 0.0 {
        level := Max(0.0, level - leaked);
      }
      last := now;
      if level + n as real <= capacity + AdmitEpsilon(capacity, ADMIT_EPSILON_REL) {
        level := level + n as real;
        return true;
      }
      return false;
    }
  }

  /** Draining in two stages is draining once, at any rate. */
  lemma DrainComposes(p: Params, s: Water, mid: int, now: int)
    requires s.last <= mid <= now
    ensures Drain(p, Water(Drain(p, s, mid), mid), now) == Drain(p, s, now)
  {
    AccruedComposes(mid - s.last, now - mid, p.rate);
    assert (mid - s.last) + (now - mid) == now - s.last;
    AccruedSign(mid - s.last, p.rate);
    AccruedSign(now - mid, p.rate);
  }

  predicate SameRoom(p: Params, late: Water, early: Water, t: int) {
    && late.last == t && early.last <= t
    && late.level == Drain(p, early, t)
  }

  lemma SameRoomAbsorbs(p: Params)
    ensures AbsorbsDenials(Policy(p), (s, r, t) => SameRoom(p, s, r, t))
  {
    forall s, r, t, c | SameRoom(p, s, r, t) && Readable(t, c)
      ensures Policy(p)(s, c).ok == Policy(p)(r, c).ok
      ensures SameRoom(p, Policy(p)(s, c).state,
                       if Policy(p)(s, c).ok then Policy(p)(r, c).state else r, After(t, c))
    {
      AccruedSign(0, p.rate);
      AccruedSign(0, -p.rate);
      if c.n > 0 {
        DrainComposes(p, r, t, c.now);
        assert s == Water(Drain(p, r, t), t);
      }
    }
  }

  /** Deleting every denied call from an ordered run leaves all other verdicts as they were. */
  lemma DeniedCallsInvisible(p: Params, origin: int, calls: seq<Call>)
    requires Ordered(calls, origin)
    ensures var kept := GrantedBy(Policy(p), Empty(origin), calls);
      && false !in Verdicts(Policy(p), Empty(origin), kept)
      && SameRoom(p, Final(Policy(p), Empty(origin), calls), Final(Policy(p), Empty(origin), kept),
                  LastReading(calls, origin))
  {
    SameRoomAbsorbs(p);
    DenialsInvisible(Policy(p), (s, r, t) => SameRoom(p, s, r, t), Empty(origin), Empty(origin), origin, calls);
  }

  /** Conservation over any stretch of a run, at any rate: what is poured is in the bucket or has
      drained, nothing is in it that was not poured, and the level never passes the brim. */
  lemma {:induction false} PouredIsHeldOrDrained(p: Params, s: Water, calls: seq<Call>)
    requires Ordered(calls, s.last)
    requires 0.0 <= s.level <= Max(0.0, Brim(p))
    ensures var end := Final(Policy(p), s, calls);
      && end.level <= s.level + Units(GrantedBy(Policy(p), s, calls)) as real
      && s.level + Units(GrantedBy(Policy(p), s, calls)) as real <= end.level + Gained(end.last - s.last, p.rate)
      && 0.0 <= end.level <= Max(0.0, Brim(p))
      && s.last <= end.last == LastReading(calls, s.last)
    decreases |calls|
  {
    AccruedComposes(0, 0, p.rate);
    if calls != [] {
      var c := calls[0];
      var o := Step(p, s, c);
      assert Policy(p)(s, c) == o;
      PouredIsHeldOrDrained(p, o.state, calls[1..]);
      GrantedCons(Policy(p), s, calls, 0);
      GainedComposes(o.state.last - s.last, Final(Policy(p), s, calls).last - o.state.last, p.rate);
    }
  }

  /** The slack is a debt bounded once for the bucket's lifetime, not once per call. */
  lemma LifetimeBound(p: Params, origin: int, calls: seq<Call>)
    requires Ordered(calls, origin)
    ensures Units(GrantedBy(Policy(p), Empty(origin), calls)) as real
            <= Max(0.0, p.capacity * (1.0 + p.eps)) + Gained(LastReading(calls, origin) - origin, p.rate)
  {
    assert Brim(p) == p.capacity * (1.0 + p.eps);
    PouredIsHeldOrDrained(p, Empty(origin), calls);
  }

  /** At a rate of zero or below the bucket is one fixed budget: the level is all that was ever
      admitted, and a batch is admitted exactly while the total stays within the brim. */
  lemma FixedBudget(p: Params, origin: int, calls: seq<Call>, c: Call)
    requires p.rate <= 0.0 && Ordered(calls, origin) && c.n > 0 && LastReading(calls, origin) <= c.now
    ensures var end, total := Final(Policy(p), Empty(origin), calls), Units(GrantedBy(Policy(p), Empty(origin), calls));
      && end.level == total as real <= Max(0.0, Brim(p))
      && (Step(p, end, c).ok <==> (total + c.n) as real <= Brim(p))
  {
    var end := Final(Policy(p), Empty(origin), calls);
    PouredIsHeldOrDrained(p, Empty(origin), calls);
    AccruedSign(end.last - origin, p.rate);
    AccruedSign(c.now - end.last, p.rate);
  }

  /** No burst from empty pours more than the capacity. */
  ghost predicate BurstsWithinCapacity(p: Params, capacity: nat, origin: int) {
    forall calls | AtInstant(calls, origin) :: Units(GrantedBy(Policy(p), Empty(origin), calls)) <= capacity
  }

  /** The slack is below any whole unit exactly while capacity * eps is: with eps = 1e-9 a capacity
      of 10^9 already lets one unit too many in. */
  lemma BurstWithinCapacityIff(p: Params, capacity: nat, origin: int)
    requires p.capacity == capacity as real
    ensures BurstsWithinCapacity(p, capacity, origin) <==> p.capacity * p.eps < 1.0
  {
    if p.capacity * p.eps < 1.0 {
      forall calls | AtInstant(calls, origin)
        ensures Units(GrantedBy(Policy(p), Empty(origin), calls)) <= capacity
      {
        InstantIsOrdered(calls, origin);
        LifetimeBound(p, origin, calls);
        AccruedComposes(0, 0, p.rate);
        assert p.capacity * (1.0 + p.eps) == p.capacity + p.capacity * p.eps;
      }
    } else {
      var calls := [Call(capacity + 1, origin)];
      AccruedComposes(0, 0, p.rate);
      assert Drain(p, Empty(origin), origin) == 0.0;
      assert AdmitEpsilon(p.capacity, p.eps) == p.capacity * p.eps;
      assert (capacity + 1) as real == p.capacity + 1.0 <= Brim(p);
      assert Step(p, Empty(origin), calls[0]).ok;
      GrantedCons(Policy(p), Empty(origin), calls, 0);
      assert AtInstant(calls, origin) && Units(GrantedBy(Policy(p), Empty(origin), calls)) >= capacity + 1;
    }
  }

  /** The level of one bucket is the spent part of the other. */
  predicate Dual(p: Params, s: TokenBuckets.Level, w: Water, t: int) {
    && s.last == t && w.last == t
    && w.level == p.capacity - s.tokens && w.level >= 0.0
  }

  /** With no slack and a rate >= 0, a token bucket and a leaky bucket given the same calls at the
      same readings return the same verdicts, and level == capacity - tokens throughout. */
  lemma TokenAndLeakyAreDual(p: Params, origin: int, calls: seq<Call>)
    requires p.rate >= 0.0 && p.eps == 0.0 && Ordered(calls, origin)
    ensures Verdicts(TokenBuckets.Policy(p), TokenBuckets.Full(p, origin), calls)
            == Verdicts(Policy(p), Empty(origin), calls)
    ensures Dual(p, Final(TokenBuckets.Policy(p), TokenBuckets.Full(p, origin), calls),
                 Final(Policy(p), Empty(origin), calls), LastReading(calls, origin))
  {
    var f, g := TokenBuckets.Policy(p), Policy(p);
    var rel := (s, w, t) => Dual(p, s, w, t);
    forall s, w, t, c | rel(s, w, t) && Readable(t, c)
      ensures f(s, c).ok == g(w, c).ok && rel(f(s, c).state, g(w, c).state, After(t, c))
    {
      if c.n > 0 {
        AccruedSign(c.now - t, p.rate);
        assert AdmitEpsilon(c.n as real, p.eps) == 0.0 && AdmitEpsilon(p.capacity, p.eps) == 0.0;
      }
    }
    SameVerdicts(f, g, rel, TokenBuckets.Full(p, origin), Empty(origin), origin, calls);
  }
  // ---------------------------------------------------------------- the exact verdict

  /** Units on top of a level fit into the capacity and its slack after so many nanoseconds of
      draining; a rate below zero drains nothing. */
  predicate FitsAfter(p: Params, level: real, units: int, nanos: int) {
    level + units as real
    <= p.capacity * (1.0 + p.eps) + (if p.rate > 0.0 then p.rate else 0.0) * nanos as real / 1000000000.0
  }

  /** From each call on, what was admitted and n more fit, with what has drained since that call. */
  predicate FitsSinceEach(p: Params, calls: seq<Call>, oks: seq<bool>, n: int, now: int)
    requires |oks| == |calls|
  {
    calls != [] ==>
      && (calls[0].n > 0 ==> FitsAfter(p, 0.0, Units(Granted(calls, oks)) + n, now - calls[0].now))
      && FitsSinceEach(p, calls[1..], oks[1..], n, now)
  }

  /** There is room for n units at a reading, after a run from a level at an earlier one. */
  predicate HasRoom(p: Params, level: real, origin: int, calls: seq<Call>, oks: seq<bool>, n: int, now: int)
    requires |oks| == |calls|
  {
    && FitsAfter(p, 0.0, n, 0)
    && FitsAfter(p, level, Units(Granted(calls, oks)) + n, now - origin)
    && FitsSinceEach(p, calls, oks, n, now)
  }

  /** The rule of a leaky bucket, stated without its level: a batch has to fit into the capacity and
      its slack, and so do all units admitted since the origin, or since any earlier call, with what
      has drained since then. */
  predicate Admits(p: Params, origin: int, calls: seq<Call>, oks: seq<bool>, c: Call) {
    c.n <= 0 || (|oks| == |calls| && HasRoom(p, 0.0, origin, calls, oks, c.n, c.now))
  }

  function LeakyRule(p: Params, origin: int): Rule {
    (calls, oks, c) => Admits(p, origin, calls, oks, c)
  }

  predicate Under(p: Params, level: real, units: int, drained: real) {
    level + units as real <= Brim(p) + drained
  }

  lemma FitsIsUnder(p: Params, level: real, units: int, nanos: nat)
    ensures FitsAfter(p, level, units, nanos) <==> Under(p, level, units, Gained(nanos, p.rate))
  {
    AccruedSign(nanos, p.rate);
    assert p.capacity * (1.0 + p.eps) == p.capacity + p.capacity * p.eps;
    assert nanos as real / NANOS_PER_SECOND * p.rate == p.rate * nanos as real / 1000000000.0;
  }

  /** One call puts two bounds on the level after it in place of one: that of before, and the empty
      bucket. */
  lemma CallBounds(p: Params, s: Water, c: Call, units: int, now: int)
    requires c.n > 0 && s.level >= 0.0 && s.last <= c.now <= now
    ensures var o := Step(p, s, c);
      var poured := if o.ok then c.n else 0;
      FitsAfter(p, o.state.level, units, now - o.state.last)
      <==> FitsAfter(p, s.level, poured + units, now - s.last) && FitsAfter(p, 0.0, poured + units, now - c.now)
  {
    var o := Step(p, s, c);
    var poured := if o.ok then c.n else 0;
    FitsIsUnder(p, o.state.level, units, now - c.now);
    FitsIsUnder(p, s.level, poured + units, now - s.last);
    FitsIsUnder(p, 0.0, poured + units, now - c.now);
    GainedComposes(c.now - s.last, now - c.now, p.rate);
  }

  /** The level at a reading is the greatest that these bounds allow for. */
  lemma {:induction false} LevelIsTheGreatestBound(p: Params, s: Water, calls: seq<Call>, n: int, now: int)
    requires s.level >= 0.0 && Ordered(calls, s.last) && LastReading(calls, s.last) <= now
    ensures s.last <= now && Final(Policy(p), s, calls).last <= now
    ensures Drain(p, Final(Policy(p), s, calls), now) + n as real <= Brim(p)
            <==> HasRoom(p, s.level, s.last, calls, Verdicts(Policy(p), s, calls), n, now)
    decreases |calls|
  {
    if calls == [] {
      FitsIsUnder(p, 0.0, n, 0);
      FitsIsUnder(p, s.level, n, now - s.last);
      AccruedSign(0, p.rate);
    } else {
      var c, o := calls[0], Step(p, s, calls[0]);
      assert Policy(p)(s, c) == o;
      LevelIsTheGreatestBound(p, o.state, calls[1..], n, now);
      assert Verdicts(Policy(p), s, calls)[1..] == Verdicts(Policy(p), o.state, calls[1..]);
      GrantedCons(Policy(p), s, calls, 0);
      if c.n > 0 {
        CallBounds(p, s, c, Units(GrantedBy(Policy(p), o.state, calls[1..])) + n, now);
      }
    }
  }

  lemma DecidesByTheRule(p: Params, origin: int, calls: seq<Call>, c: Call)
    requires Ordered(calls, origin) && Readable(LastReading(calls, origin), c)
    ensures Step(p, Final(Policy(p), Empty(origin), calls), c).ok
            == Admits(p, origin, calls, Verdicts(Policy(p), Empty(origin), calls), c)
  {
    if c.n > 0 {
      LevelIsTheGreatestBound(p, Empty(origin), calls, c.n, c.now);
    }
  }

  /** The verdicts of every ordered run, at any rate and slack, are those of the rule, and no others. */
  lemma VerdictsAreExact(p: Params, origin: int, calls: seq<Call>, oks: seq<bool>)
    requires Ordered(calls, origin) && |oks| == |calls|
    ensures oks == Verdicts(Policy(p), Empty(origin), calls) <==> Obeys(LeakyRule(p, origin), calls, oks)
  {
    forall i | 0 <= i < |calls|
      ensures Policy(p)(Final(Policy(p), Empty(origin), calls[..i]), calls[i]).ok
              == LeakyRule(p, origin)(calls[..i], Verdicts(Policy(p), Empty(origin), calls[..i]), calls[i])
    {
      OrderedPrefix(calls, i, origin);
      DecidesByTheRule(p, origin, calls[..i], calls[i]);
    }
    OnlyVerdictsObey(Policy(p), Empty(origin), LeakyRule(p, origin), calls, oks);
  }
}
