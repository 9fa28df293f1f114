/** The arithmetic of atomic_tokenbucket.go: the constructor's guards, nextAtomicState in int64
    and in exact integers, and what one bucket does when its calls are made one after another. */
module AtomicStates {
  import opened Runs
  import Limits
  import TokenBuckets

  const INT64_MAX: int := 0x7FFF_FFFF_FFFF_FFFF
  const INT64_MIN: int := -0x8000_0000_0000_0000
  const TWO_TO_THE_64: int := 0x1_0000_0000_0000_0000
  const MAX_BUCKET_SPAN_NANOS: int := 0x4000_0000_0000_0000

  predicate IsInt64(x: int) {
    INT64_MIN <= x <= INT64_MAX
  }

  /** The value an int64 operation with the exact result x leaves: two's-complement wrap-around. */
  function Wrap64(x: int): int {
    (x - INT64_MIN) % TWO_TO_THE_64 + INT64_MIN
  }

  // ---------------------------------------------------------------- construction

  datatype Config = Config(nanosPerToken: int, capT: int, capacity: int)

  datatype Panic = RateNotPositive | PeriodBelowResolution | PeriodTooLong | SpanTooLong

  datatype Result<+T, +E> = Ok(value: T) | Err(error: E)

  /** math.Round(1e9 / rate) for a positive rate: ties go away from zero. */
  function Period(rate: real): int
    requires rate > 0.0
  {
    (Limits.NANOS_PER_SECOND / rate + 0.5).Floor
  }

  /** NewAtomicTokenBucket's validation; its panics are errors here. */
  function Configure(rate: real, capacity: int): Result<Config, Panic> {
    if rate <= 0.0 then Err(RateNotPositive) else
    var period := Period(rate);
    if period < 1 then Err(PeriodBelowResolution)
    else if period > MAX_BUCKET_SPAN_NANOS then Err(PeriodTooLong)
    else if capacity > 0 then
      if capacity > MAX_BUCKET_SPAN_NANOS / period then Err(SpanTooLong)
      else Ok(Config(period, Wrap64(capacity * period), capacity))
    else Ok(Config(period, 0, capacity))
  }

  predicate Valid(c: Config) {
    && 1 <= c.nanosPerToken <= MAX_BUCKET_SPAN_NANOS
    && c.capT == (if c.capacity > 0 then c.capacity * c.nanosPerToken else 0)
    && c.capT <= MAX_BUCKET_SPAN_NANOS
    && IsInt64(c.capacity)
  }

  lemma CapTNotNegative(c: Config)
    requires Valid(c)
    ensures 0 <= c.capT
  {
    if c.capacity > 0 {
      Limits.ProductOrder(0, c.capacity, c.nanosPerToken);
    }
  }

  lemma WrapIsIdentity(x: int)
    requires IsInt64(x)
    ensures Wrap64(x) == x
  {
  }

  lemma QuotientBounds(x: int, t: int)
    requires t >= 1
    ensures x / t * t <= x < (x / t + 1) * t
  {
    assert (x / t + 1) * t == x / t * t + t;
  }

  lemma SpanFits(capacity: int, period: int)
    requires period >= 1
    ensures capacity > MAX_BUCKET_SPAN_NANOS / period <==> capacity * period > MAX_BUCKET_SPAN_NANOS
  {
    var q := MAX_BUCKET_SPAN_NANOS / period;
    QuotientBounds(MAX_BUCKET_SPAN_NANOS, period);
    if capacity > q {
      Limits.ProductOrder(q + 1, capacity, period);
    } else {
      Limits.ProductOrder(capacity, q, period);
    }
  }

  /** The period rounds to zero exactly above two units per nanosecond. */
  lemma ResolutionBound(rate: real)
    requires rate > 0.0
    ensures Period(rate) < 1 <==> rate > 2000000000.0
  {
    var exact := Limits.NANOS_PER_SECOND / rate;
    assert exact * rate == Limits.NANOS_PER_SECOND;
    assert (0.5 - exact) * rate == 0.5 * rate - Limits.NANOS_PER_SECOND;
    Limits.SignOfProduct(0.5 - exact, rate);
  }

  /** Whatever the constructor accepts is a configuration whose product did not overflow, and it
      accepts every representable one: the divided guard is the exact bound on the span. */
  lemma ConfigureIsExact(rate: real, capacity: int)
    requires IsInt64(capacity)
    ensures Configure(rate, capacity).Ok? <==>
            rate > 0.0 && 1 <= Period(rate) <= MAX_BUCKET_SPAN_NANOS
            && (capacity > 0 ==> capacity * Period(rate) <= MAX_BUCKET_SPAN_NANOS)
    ensures var c := Configure(rate, capacity);
      c.Ok? ==> Valid(c.value) && c.value.nanosPerToken == Period(rate) && c.value.capacity == capacity
    ensures Configure(rate, capacity) == Err(RateNotPositive) <==> rate <= 0.0
    ensures Configure(rate, capacity) == Err(PeriodBelowResolution) <==> rate > 2000000000.0
    ensures Configure(rate, capacity) == Err(PeriodTooLong) <==> rate > 0.0 && Period(rate) > MAX_BUCKET_SPAN_NANOS
    ensures Configure(rate, capacity) == Err(SpanTooLong) <==>
            rate > 0.0 && 1 <= Period(rate) <= MAX_BUCKET_SPAN_NANOS && capacity > 0
            && capacity * Period(rate) > MAX_BUCKET_SPAN_NANOS
  {
    if rate > 0.0 {
      ResolutionBound(rate);
    }
    if rate > 0.0 && 1 <= Period(rate) && capacity > 0 {
      SpanFits(capacity, Period(rate));
      assert capacity * Period(rate) >= 0;
      if capacity * Period(rate) <= MAX_BUCKET_SPAN_NANOS {
        WrapIsIdentity(capacity * Period(rate));
      }
    }
  }

  /** The stored period is the nearest whole number of nanoseconds, upwards from half way, which is a
      relative error of at most rate / 2e9 in the period. */
  lemma PeriodCalibration(rate: real)
    requires rate > 0.0
    ensures Limits.NANOS_PER_SECOND / rate - 0.5 < Period(rate) as real <= Limits.NANOS_PER_SECOND / rate + 0.5
    ensures var exact, error := Limits.NANOS_PER_SECOND / rate, rate / 2000000000.0;
      exact * (1.0 - error) <= Period(rate) as real <= exact * (1.0 + error)
  {
    var exact, error := Limits.NANOS_PER_SECOND / rate, rate / 2000000000.0;
    assert exact * rate == Limits.NANOS_PER_SECOND;
    assert exact * error == exact * rate / 2000000000.0 == 0.5;
    assert exact * (1.0 - error) == exact - exact * error;
    assert exact * (1.0 + error) == exact + exact * error;
  }

  /** Units per second at one unit per stored period: the rate that is enforced. */
  function EnforcedRate(rate: real): real
    requires rate > 0.0 && Period(rate) >= 1
  {
    Limits.NANOS_PER_SECOND / Period(rate) as real
  }

  function Distance(a: real, b: real): real {
    if a <= b then b - a else a - b
  }

  /** The enforced rate is not always within rate / 2e9 of the one asked for, as the period is: it is
      exactly when the period was rounded down by at most 1e9 / (rate + 2e9), so rounding up never
      fails and rounding down by nearly a half can. What always holds is rate / (2e9 - rate). */
  lemma RateCalibrationIff(rate: real)
    requires rate > 0.0 && Period(rate) >= 1
    ensures Distance(EnforcedRate(rate), rate) <= rate * (rate / 2000000000.0)
            <==> Limits.NANOS_PER_SECOND / rate - Period(rate) as real
                 <= Limits.NANOS_PER_SECOND / (rate + 2000000000.0)
    ensures Distance(EnforcedRate(rate), rate) * (2000000000.0 - rate) <= rate * rate
    ensures rate == 670000000.0 ==> Distance(EnforcedRate(rate), rate) > rate * (rate / 2000000000.0)
  {
    var ns, t, e := Limits.NANOS_PER_SECOND, Period(rate) as real, EnforcedRate(rate);
    var exact, bound := ns / rate, rate * (rate / 2000000000.0);
    ExactPeriod(rate, exact, bound, ns / (rate + 2000000000.0));
    WithinIff(exact, t, rate, e, bound, ns / (rate + 2000000000.0));
    AlwaysWithin(exact, t, rate, e);
    assert rate * (2.0 * exact - 1.0) == 2000000000.0 - rate;
  }

  /** The terms of the condition, in units of the exact period. */
  lemma ExactPeriod(rate: real, exact: real, bound: real, slack: real)
    requires rate > 0.0 && exact == Limits.NANOS_PER_SECOND / rate
    requires bound == rate * (rate / 2000000000.0) && slack == Limits.NANOS_PER_SECOND / (rate + 2000000000.0)
    ensures exact > 0.0 && exact * rate == Limits.NANOS_PER_SECOND
    ensures bound * (2.0 * exact) == rate && slack * (2.0 * exact + 1.0) == exact
  {
    assert exact * rate == Limits.NANOS_PER_SECOND;
    Limits.SignOfProduct(exact, rate);
    assert bound * (2.0 * exact) == rate * (exact * rate) / 1000000000.0;
    SlackInPeriods(rate, exact, slack);
  }

  lemma SlackInPeriods(rate: real, exact: real, slack: real)
    requires rate > 0.0 && exact * rate == Limits.NANOS_PER_SECOND
    requires slack * (rate + 2000000000.0) == Limits.NANOS_PER_SECOND
    ensures slack * (2.0 * exact + 1.0) == exact
  {
    var off := slack * (2.0 * exact + 1.0) - exact;
    assert off * rate == slack * (2.0 * (exact * rate) + rate) - exact * rate;
    Limits.SignOfProduct(off, rate);
    Limits.SignOfProduct(-off, rate);
  }

  /** All for a period t within half of the exact one, and the rate e that it enforces for rate r. */
  predicate RoundedPeriod(exact: real, t: real, r: real, e: real) {
    && exact > 0.0 && t > 0.0 && r > 0.0
    && exact - 0.5 <= t <= exact + 0.5
    && (e - r) * t == r * (exact - t)
  }

  lemma WithinIff(exact: real, t: real, r: real, e: real, bound: real, slack: real)
    requires RoundedPeriod(exact, t, r, e)
    requires bound * (2.0 * exact) == r && slack * (2.0 * exact + 1.0) == exact
    ensures Distance(e, r) <= bound <==> exact - t <= slack
  {
    FastSide(exact, t, r, e, bound);
    RoundedDown(exact, t, slack);
    SlowSide(exact, t, r, e, bound);
  }

  /** The room that the period t leaves for being too short. */
  function Spare(exact: real, t: real): real {
    t - 2.0 * exact * (exact - t)
  }

  lemma FastSide(exact: real, t: real, r: real, e: real, bound: real)
    requires RoundedPeriod(exact, t, r, e) && bound * (2.0 * exact) == r
    ensures e - r <= bound <==> Spare(exact, t) >= 0.0
  {
    Cleared(exact, t, r, e - r, exact - t, bound);
    Limits.SignOfProduct(Spare(exact, t), r);
  }

  /** d <= bound, multiplied by 2 * exact * t. */
  lemma Cleared(exact: real, t: real, r: real, d: real, off: real, bound: real)
    requires exact > 0.0 && t > 0.0 && d * t == r * off && bound * (2.0 * exact) == r
    ensures d <= bound <==> (t - 2.0 * exact * off) * r >= 0.0
  {
    var scale := 2.0 * exact * t;
    Limits.SignOfProduct(t, exact);
    assert bound * scale == r * t;
    assert d * scale == 2.0 * exact * (r * off);
    assert (bound - d) * scale == (t - 2.0 * exact * off) * r;
    Limits.SignOfProduct(bound - d, scale);
  }

  lemma RoundedDown(exact: real, t: real, slack: real)
    requires exact > 0.0 && slack * (2.0 * exact + 1.0) == exact
    ensures Spare(exact, t) >= 0.0 <==> exact - t <= slack
  {
    assert (slack - (exact - t)) * (2.0 * exact + 1.0) == Spare(exact, t);
    Limits.SignOfProduct(slack - (exact - t), 2.0 * exact + 1.0);
  }

  lemma SlowSide(exact: real, t: real, r: real, e: real, bound: real)
    requires RoundedPeriod(exact, t, r, e) && bound * (2.0 * exact) == r
    ensures r - e <= bound
  {
    assert bound * exact == r / 2.0;
    Limits.SignOfProduct(bound, exact);
    SmallShare(r, t - exact, r - e, t, exact, bound);
  }

  lemma SmallShare(r: real, off: real, d: real, t: real, exact: real, bound: real)
    requires r > 0.0 && t > 0.0 && d * t == r * off && off <= 0.5 && (off > 0.0 ==> exact <= t)
    requires bound > 0.0 && bound * exact == r / 2.0
    ensures d <= bound
  {
    if off <= 0.0 {
      Limits.ScaleBounds(r, off, 0.0);
      Limits.SignOfProduct(d, t);
    } else {
      Limits.ScaleBounds(r, off, 0.5);
      Limits.ScaleBounds(bound, exact, t);
      assert (bound - d) * t == bound * t - d * t;
      Limits.SignOfProduct(bound - d, t);
    }
  }

  lemma AlwaysWithin(exact: real, t: real, r: real, e: real)
    requires RoundedPeriod(exact, t, r, e)
    ensures Distance(e, r) * (r * (2.0 * exact - 1.0)) <= r * r
  {
    var d := Distance(e, r);
    OffByHalf(exact, t, r, e);
    Limits.ScaleBounds(d * r, 2.0 * exact - 1.0, 2.0 * t);
    assert d * r * (2.0 * t) == 2.0 * r * (d * t);
    Limits.ScaleBounds(r, d * t, r / 2.0);
  }

  lemma OffByHalf(exact: real, t: real, r: real, e: real)
    requires RoundedPeriod(exact, t, r, e)
    ensures Distance(e, r) * t <= r / 2.0 && Distance(e, r) * r >= 0.0
  {
    Limits.ScaleBounds(r, exact - t, 0.5);
    Limits.ScaleBounds(r, t - exact, 0.5);
    Limits.SignOfProduct(Distance(e, r), r);
  }

  // ---------------------------------------------------------------- the transition

  datatype Transition = Denied | Granted(next: int)

  /** nextAtomicState as the code computes it, every operation in int64. */
  function NextAtomicState(vt: int, nowNs: int, capT: int, need: int): Transition {
    var floor := Wrap64(nowNs - capT);
    var eff := if vt < floor then floor else vt;
    var avail := Wrap64(nowNs - eff);
    if avail < need then Denied else Granted(Wrap64(eff + need))
  }

  /** The same transition over the exact integers. */
  function Advance(vt: int, nowNs: int, capT: int, need: int): Transition {
    var eff := if vt < nowNs - capT then nowNs - capT else vt;
    if nowNs - eff < need then Denied else Granted(eff + need)
  }

  /** elapsedNanos: the reading, clamped at zero against a clock that breaks its contract. */
  function Elapsed(reading: int): (ns: int)
    ensures ns >= 0
  {
    if reading < 0 then 0 else reading
  }

  /** The reachable values of the word: no further back than a full bucket, representable, and
      (as the last reading is) never past top. */
  predicate InRange(c: Config, vt: int, top: int) {
    -c.capT <= vt <= top && 0 <= top <= INT64_MAX
  }

  /** The cost of a batch the bucket could hold. */
  lemma CostBounds(c: Config, n: int)
    requires Valid(c) && 1 <= n <= c.capacity
    ensures c.nanosPerToken <= n * c.nanosPerToken <= c.capT
  {
    Limits.ProductOrder(1, n, c.nanosPerToken);
    Limits.ProductOrder(n, c.capacity, c.nanosPerToken);
  }

  /** No intermediate value of the transition leaves int64, so the code computes the exact one. */
  predicate Exact64(capT: int, vt: int, now: int, need: int) {
    var eff := if vt < now - capT then now - capT else vt;
    && IsInt64(need) && IsInt64(now - capT) && IsInt64(now - eff)
    && (now - eff >= need ==> IsInt64(eff + need))
    && NextAtomicState(vt, now, capT, need) == Advance(vt, now, capT, need)
  }

  lemma SpanBoundsSuffice(capT: int, vt: int, now: int, need: int)
    requires 0 < need <= capT <= MAX_BUCKET_SPAN_NANOS && 0 <= now <= INT64_MAX && -capT <= vt <= INT64_MAX
    ensures Exact64(capT, vt, now, need)
  {
    var eff := if vt < now - capT then now - capT else vt;
    WrapIsIdentity(now - capT);
    WrapIsIdentity(now - eff);
    if now - eff >= need {
      WrapIsIdentity(eff + need);
    }
  }

  /** From any reachable word, at any reading, nothing overflows; and the word a grant installs is
      reachable again. */
  lemma NoOverflow(c: Config, vt: int, top: int, reading: int, n: int)
    requires Valid(c) && InRange(c, vt, top) && IsInt64(reading) && 1 <= n <= c.capacity
    ensures var now, need := Elapsed(reading), n * c.nanosPerToken;
      var next := NextAtomicState(vt, now, c.capT, Wrap64(need));
      && Exact64(c.capT, vt, now, need) && Wrap64(need) == need
      && (next.Granted? ==> InRange(c, next.next, if top < now then now else top))
  {
    var need := n * c.nanosPerToken;
    CostBounds(c, n);
    WrapIsIdentity(need);
    SpanBoundsSuffice(c.capT, vt, Elapsed(reading), need);
  }

  // ---------------------------------------------------------------- one call after another

  /** AllowN made alone, in exact arithmetic. A denial writes nothing. */
  function Step(c: Config, vt: int, call: Call): Outcome<int> {
    if call.n <= 0 then Outcome(vt, true)
    else if call.n > c.capacity then Outcome(vt, false)
    else match Advance(vt, Elapsed(call.now), c.capT, call.n * c.nanosPerToken)
      case Denied => Outcome(vt, false)
      case Granted(next) => Outcome(next, true)
  }

  function Policy(c: Config): (int, Call) -> Outcome<int> {
    (vt, call) => Step(c, vt, call)
  }

  /** A full bucket is a virtual zero time one full span in the past. */
  function FullAt(c: Config): int {
    -c.capT
  }

  lemma DeniedCallsInvisible(c: Config, vt: int, calls: seq<Call>)
    ensures var kept := GrantedBy(Policy(c), vt, calls);
      && false !in Verdicts(Policy(c), vt, kept)
      && Final(Policy(c), vt, kept) == Final(Policy(c), vt, calls)
  {
    DenialsWithoutWrites(Policy(c), vt, calls);
  }

  /** Commits: the granted calls of positive size, with the word before and after. */
  datatype Commit = Commit(call: Call, before: int, after: int)

  predicate IsCommit(c: Config, m: Commit) {
    && 1 <= m.call.n <= c.capacity && m.call.now >= 0
    && Advance(m.before, m.call.now, c.capT, m.call.n * c.nanosPerToken) == Granted(m.after)
  }

  /** The word after the commits, starting from a full bucket. */
  function WordAfter(c: Config, commits: seq<Commit>): int {
    if commits == [] then FullAt(c) else commits[|commits| - 1].after
  }

  /** Commits in the order of their successful CASes, each on the word the one before installed. */
  ghost predicate Chain(c: Config, commits: seq<Commit>) {
    forall k {:trigger commits[..k]} :: 0 <= k < |commits| ==>
      IsCommit(c, commits[k]) && commits[k].before == WordAfter(c, commits[..k])
  }

  lemma InChain(c: Config, commits: seq<Commit>, k: nat)
    requires Chain(c, commits) && k < |commits|
    ensures IsCommit(c, commits[k]) && commits[k].before == WordAfter(c, commits[..k])
  {
    assert |commits[..k]| == k;
  }

  function CommittedUnits(commits: seq<Commit>): int {
    if commits == [] then 0 else commits[0].call.n + CommittedUnits(commits[1..])
  }

  /** What the commits cost, in nanoseconds. */
  function CommittedSpan(c: Config, commits: seq<Commit>): int {
    if commits == [] then 0 else commits[0].call.n * c.nanosPerToken + CommittedSpan(c, commits[1..])
  }

  lemma {:induction false} SpanIsUnits(c: Config, commits: seq<Commit>)
    ensures CommittedSpan(c, commits) == CommittedUnits(commits) * c.nanosPerToken
    decreases |commits|
  {
    if commits != [] {
      SpanIsUnits(c, commits[1..]);
      var n, rest := commits[0].call.n, CommittedUnits(commits[1..]);
      assert (n + rest) * c.nanosPerToken == n * c.nanosPerToken + rest * c.nanosPerToken;
    }
  }

  /** What one commit does to the word: it rises by the cost of the batch, at least one period,
      ends no later than the reading, and no further before it than a full bucket less the batch. */
  lemma CommitMoves(c: Config, m: Commit)
    requires Valid(c) && IsCommit(c, m)
    ensures m.after >= m.before + m.call.n * c.nanosPerToken
    ensures m.after >= m.before + c.nanosPerToken
    ensures m.call.now - c.capT + m.call.n * c.nanosPerToken <= m.after <= m.call.now
  {
    CostBounds(c, m.call.n);
  }

  /** A longer chain keeps its earlier commits. */
  lemma ChainSnoc(c: Config, commits: seq<Commit>, m: Commit)
    requires Chain(c, commits) && IsCommit(c, m) && m.before == WordAfter(c, commits)
    ensures Chain(c, commits + [m]) && WordAfter(c, commits + [m]) == m.after
  {
    var longer := commits + [m];
    forall k | 0 <= k < |longer|
      ensures IsCommit(c, longer[k]) && longer[k].before == WordAfter(c, longer[..k])
    {
      if k < |commits| {
        assert longer[..k] == commits[..k];
      } else {
        assert longer[..k] == commits;
      }
    }
  }

  /** The word rises over any stretch of commits by at least what the stretch costs, and a period. */
  lemma {:induction false} StretchRises(c: Config, commits: seq<Commit>, i: nat, j: nat)
    requires Valid(c) && Chain(c, commits) && i <= j <= |commits|
    ensures WordAfter(c, commits[..j]) >= WordAfter(c, commits[..i]) + CommittedSpan(c, commits[i..j])
    ensures i < j ==> WordAfter(c, commits[..j]) >= WordAfter(c, commits[..i]) + c.nanosPerToken
    decreases j - i
  {
    if i < j {
      InChain(c, commits, i);
      CommitMoves(c, commits[i]);
      assert commits[..i + 1][i] == commits[i];
      StretchRises(c, commits, i + 1, j);
      assert commits[i..j][1..] == commits[i + 1..j];
    }
  }

  /** Any word installed by a chain of commits at representable readings is in range. */
  lemma ChainInRange(c: Config, commits: seq<Commit>, k: nat)
    requires Valid(c) && Chain(c, commits) && k <= |commits|
    requires forall m <- commits :: m.call.now <= INT64_MAX
    ensures InRange(c, WordAfter(c, commits[..k]), INT64_MAX)
    ensures k > 0 ==> WordAfter(c, commits[..k]) <= commits[k - 1].call.now
  {
    CapTNotNegative(c);
    assert commits[..0] == [];
    if k > 0 {
      assert commits[..k][k - 1] == commits[k - 1];
      InChain(c, commits, k - 1);
      CommitMoves(c, commits[k - 1]);
      StretchRises(c, commits, 0, k);
    }
  }

  /** No over-admission in any stretch of any run: the units of commits i..j cost at most a full
      bucket plus the time between the two readings, however stale or out of order readings are. */
  lemma NeverOverAdmits(c: Config, commits: seq<Commit>, i: nat, j: nat)
    requires Valid(c) && Chain(c, commits) && i <= j < |commits|
    ensures CommittedUnits(commits[i..j + 1]) * c.nanosPerToken
            <= c.capT + commits[j].call.now - commits[i].call.now
  {
    InChain(c, commits, i);
    InChain(c, commits, j);
    CommitMoves(c, commits[i]);
    CommitMoves(c, commits[j]);
    StretchRises(c, commits, i + 1, j + 1);
    assert commits[..i + 1][i] == commits[i] && commits[..j + 1][j] == commits[j];
    assert commits[i..j + 1][1..] == commits[i + 1..j + 1];
    SpanIsUnits(c, commits[i..j + 1]);
  }

  /** No value of the word ever comes back: successive words strictly increase. */
  lemma WordsNeverRepeat(c: Config, commits: seq<Commit>, i: nat, j: nat)
    requires Valid(c) && Chain(c, commits) && i <= |commits| && j <= |commits|
    ensures WordAfter(c, commits[..i]) == WordAfter(c, commits[..j]) <==> i == j
  {
    if i < j {
      StretchRises(c, commits, i, j);
    } else if j < i {
      StretchRises(c, commits, j, i);
    }
  }

  // ---------------------------------------------------------------- batches

  /** k calls of Allow at one reading. */
  function Singles(k: nat, now: int): seq<Call> {
    if k == 0 then [] else [Call(1, now)] + Singles(k - 1, now)
  }

  /** Whether all the calls of a run are granted. */
  predicate AllGranted(c: Config, vt: int, calls: seq<Call>)
    decreases |calls|
  {
    calls == [] || (Step(c, vt, calls[0]).ok && AllGranted(c, Step(c, vt, calls[0]).state, calls[1..]))
  }

  lemma {:induction false} AllGrantedIsVerdicts(c: Config, vt: int, calls: seq<Call>)
    ensures AllGranted(c, vt, calls) <==> false !in Verdicts(Policy(c), vt, calls)
    decreases |calls|
  {
    if calls != [] {
      var o := Policy(c)(vt, calls[0]);
      assert o == Step(c, vt, calls[0]);
      AllGrantedIsVerdicts(c, o.state, calls[1..]);
      var rest := Verdicts(Policy(c), o.state, calls[1..]);
      assert Verdicts(Policy(c), vt, calls) == [o.ok] + rest;
      assert false in [o.ok] + rest <==> !o.ok || false in rest;
    }
  }

  function Floored(c: Config, vt: int, now: int): int {
    if vt < Elapsed(now) - c.capT then Elapsed(now) - c.capT else vt
  }

  lemma {:induction false} SinglesSpend(c: Config, vt: int, k: nat, now: int)
    requires Valid(c) && k >= 1 && c.capacity >= 1
    ensures AllGranted(c, vt, Singles(k, now)) <==> k * c.nanosPerToken <= Elapsed(now) - Floored(c, vt, now)
    ensures AllGranted(c, vt, Singles(k, now)) ==>
              Final(Policy(c), vt, Singles(k, now)) == Floored(c, vt, now) + k * c.nanosPerToken
    decreases k
  {
    var calls, o := Singles(k, now), Step(c, vt, Call(1, now));
    assert calls[0] == Call(1, now) && calls[1..] == Singles(k - 1, now);
    assert Policy(c)(vt, calls[0]) == o;
    assert 1 * c.nanosPerToken == c.nanosPerToken;
    assert k * c.nanosPerToken == (k - 1) * c.nanosPerToken + c.nanosPerToken;
    if k > 1 {
      SinglesSpend(c, o.state, k - 1, now);
      Limits.ProductOrder(0, k - 1, c.nanosPerToken);
    }
  }

  lemma BatchSpends(c: Config, vt: int, n: int, now: int)
    requires Valid(c) && n >= 1 && c.capacity >= 1
    ensures Step(c, vt, Call(n, now)).ok <==> n * c.nanosPerToken <= Elapsed(now) - Floored(c, vt, now)
    ensures Step(c, vt, Call(n, now)).ok ==>
              Step(c, vt, Call(n, now)).state == Floored(c, vt, now) + n * c.nanosPerToken
  {
    if n > c.capacity {
      Limits.ProductOrder(c.capacity + 1, n, c.nanosPerToken);
      assert (c.capacity + 1) * c.nanosPerToken == c.capT + c.nanosPerToken;
    }
  }

  /** A batch of n is n single calls: it is granted exactly when all of them would be, and then
      both leave the same word. */
  lemma BatchIsRepeatedAllow(c: Config, vt: int, n: int, now: int)
    requires Valid(c) && n >= 1
    ensures Step(c, vt, Call(n, now)).ok <==> false !in Verdicts(Policy(c), vt, Singles(n, now))
    ensures Step(c, vt, Call(n, now)).ok ==>
              Step(c, vt, Call(n, now)).state == Final(Policy(c), vt, Singles(n, now))
  {
    AllGrantedIsVerdicts(c, vt, Singles(n, now));
    if c.capacity >= 1 {
      SinglesSpend(c, vt, n, now);
      BatchSpends(c, vt, n, now);
    } else {
      assert Singles(n, now)[0] == Call(1, now);
    }
  }
  // ---------------------------------------------------------------- the exact verdict

  /** Units cost no more than a full bucket and the time that has passed. */
  predicate Fits(c: Config, units: int, nanos: int) {
    units * c.nanosPerToken <= c.capacity * c.nanosPerToken + nanos
  }

  /** A reading before the origin counts as one at the origin. */
  predicate FitsSince(c: Config, units: int, reading: int, now: int) {
    Fits(c, units, now - if reading < 0 then 0 else reading)
  }

  predicate FitsSinceEach(c: Config, granted: seq<Call>, n: int, now: int) {
    granted != [] ==>
      && (granted[0].n > 0 ==> FitsSince(c, Units(granted) + n, granted[0].now, now))
      && FitsSinceEach(c, granted[1..], n, now)
  }

  /** The rule of the one-word bucket, stated on the granted batches alone, whatever the readings: a
      batch has to fit into the capacity, and with all that was granted since the origin, or since any
      grant, into the capacity and the time that has passed since then. */
  predicate Admits(c: Config, calls: seq<Call>, oks: seq<bool>, call: Call) {
    call.n <= 0
    || (|oks| == |calls| && call.n <= c.capacity &&
        var granted, now := Runs.Granted(calls, oks), if call.now < 0 then 0 else call.now;
        Fits(c, Units(granted) + call.n, now) && FitsSinceEach(c, granted, call.n, now))
  }

  function AtomicRule(c: Config): Rule {
    (calls, oks, call) => Admits(c, calls, oks, call)
  }

  /** Units can be spent from a word by a reading. */
  predicate Spendable(c: Config, vt: int, units: int, now: int) {
    vt + units * c.nanosPerToken <= now
  }

  /** A grant puts two bounds on later spending in place of one: that of the word before it, and the
      floor. */
  lemma GrantBounds(c: Config, vt: int, call: Call, units: int, now: int)
    requires Valid(c) && call.n > 0 && Step(c, vt, call).ok
    ensures Spendable(c, Step(c, vt, call).state, units, now)
            <==> Spendable(c, vt, call.n + units, now) && FitsSince(c, call.n + units, call.now, now)
  {
    assert (call.n + units) * c.nanosPerToken == call.n * c.nanosPerToken + units * c.nanosPerToken;
  }

  lemma {:induction false} WordIsTheLatestBound(c: Config, vt: int, calls: seq<Call>, n: int, now: int)
    requires Valid(c)
    ensures var granted := GrantedBy(Policy(c), vt, calls);
      Spendable(c, Final(Policy(c), vt, calls), n, now)
      <==> Spendable(c, vt, Units(granted) + n, now) && FitsSinceEach(c, granted, n, now)
    decreases |calls|
  {
    if calls != [] {
      var call, o := calls[0], Step(c, vt, calls[0]);
      assert Policy(c)(vt, call) == o;
      WordIsTheLatestBound(c, o.state, calls[1..], n, now);
      var rest := GrantedBy(Policy(c), o.state, calls[1..]);
      assert Verdicts(Policy(c), vt, calls)[1..] == Verdicts(Policy(c), o.state, calls[1..]);
      assert ([call] + rest)[1..] == rest && [] + rest == rest;
      if o.ok && call.n > 0 {
        GrantBounds(c, vt, call, Units(rest) + n, now);
      }
    }
  }

  lemma StepSpends(c: Config, vt: int, call: Call)
    requires Valid(c) && 1 <= call.n <= c.capacity
    ensures Step(c, vt, call).ok <==> Spendable(c, vt, call.n, Elapsed(call.now))
  {
    CostBounds(c, call.n);
  }

  lemma FullIsFits(c: Config, units: int, now: int)
    requires Valid(c) && c.capacity >= 1
    ensures Spendable(c, FullAt(c), units, now) <==> Fits(c, units, now)
  {
  }

  lemma DecidesByTheRule(c: Config, calls: seq<Call>, oks: seq<bool>, call: Call)
    requires Valid(c) && oks == Verdicts(Policy(c), FullAt(c), calls)
    ensures Step(c, Final(Policy(c), FullAt(c), calls), call).ok == Admits(c, calls, oks, call)
  {
    if 1 <= call.n <= c.capacity {
      var now := Elapsed(call.now);
      StepSpends(c, Final(Policy(c), FullAt(c), calls), call);
      WordIsTheLatestBound(c, FullAt(c), calls, call.n, now);
      FullIsFits(c, Units(Runs.Granted(calls, oks)) + call.n, now);
    }
  }

  /** The verdicts of every run, at any readings, are those of the rule, and no others: a batch is
      denied exactly when it would take some stretch of grants past the admission bound. */
  lemma VerdictsAreExact(c: Config, calls: seq<Call>, oks: seq<bool>)
    requires Valid(c) && |oks| == |calls|
    ensures oks == Verdicts(Policy(c), FullAt(c), calls) <==> Obeys(AtomicRule(c), calls, oks)
  {
    forall i | 0 <= i < |calls|
      ensures Policy(c)(Final(Policy(c), FullAt(c), calls[..i]), calls[i]).ok
              == AtomicRule(c)(calls[..i], Verdicts(Policy(c), FullAt(c), calls[..i]), calls[i])
    {
      DecidesByTheRule(c, calls[..i], Verdicts(Policy(c), FullAt(c), calls[..i]), calls[i]);
    }
    OnlyVerdictsObey(Policy(c), FullAt(c), AtomicRule(c), calls, oks);
  }
}
