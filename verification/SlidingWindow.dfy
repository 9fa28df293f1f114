/** slidingwindow.go: two counters, one for the current fixed window and one for the previous, that
    stand for a full log of admissions. The counters only ever hold whole numbers of units, so they
    are integers here; the weighted estimate is an exact real. */
module SlidingWindows {
  import opened Limits
  import opened Runs

  /** A positive span of time: the constructor panics on any other window. */
  type Span = w: int | w > 0 witness 1

  datatype Params = Params(limit: int, window: Span, eps: real)

  datatype Counters = Counters(start: int, prev: int, curr: int)

  function Fresh(now: int): Counters {
    Counters(now, 0, 0)
  }

  /** Rolls the fixed windows forward to the one holding now. */
  function Roll(p: Params, s: Counters, now: int): Counters {
    var elapsed := now - s.start;
    if elapsed >= p.window then
      var passed := elapsed / p.window;
      Counters(s.start + passed * p.window, if passed == 1 then s.curr else 0, 0)
    else s
  }

  /** The fraction of the previous fixed window still inside (now - window, now]. */
  function Overlap(p: Params, elapsed: int): real {
    (p.window - elapsed) as real / p.window as real
  }

  /** The estimated usage of the trailing window, for counters already rolled to now. */
  function Estimate(p: Params, s: Counters, now: int): real {
    s.prev as real * Overlap(p, now - s.start) + s.curr as real
  }

  /** The most the estimate plus the batch may reach. */
  function Ceiling(p: Params): real {
    p.limit as real + AdmitEpsilon(p.limit as real, p.eps)
  }

  /** AllowN: roll, then count the whole batch or nothing. A denial keeps the roll. */
  function Step(p: Params, s: Counters, c: Call): Outcome<Counters> {
    if c.n <= 0 then Outcome(s, true) else
    var r := Roll(p, s, c.now);
    if Estimate(p, r, c.now) + c.n as real <= Ceiling(p) then Outcome(r.(curr := r.curr + c.n), true)
    else Outcome(r, false)
  }

  function Policy(p: Params): (Counters, Call) -> Outcome<Counters> {
    (s, c) => Step(p, s, c)
  }

  class SlidingWindow {
    var windowStart: int
    var prevCount: int
    var currCount: int
    const limit: int
    const window: Span

    function Config(): Params {
      Params(limit, window, ADMIT_EPSILON_REL)
    }

    function State(): Counters
      reads this
    {
      Counters(windowStart, prevCount, currCount)
    }

    constructor (limit: int, window: int, now: int)
      requires window > 0
      ensures Config() == Params(limit, window, ADMIT_EPSILON_REL)
      ensures State() == Fresh(now)
    {
      this.windowStart := now;
      this.prevCount := 0;
      this.currCount := 0;
      this.limit := limit;
      this.window := window;
    }

    method Allow(now: int) returns (ok: bool)
      modifies this
      ensures Outcome(State(), ok) == Step(Config(), old(State()), Call(1, now))
    {
      ok := AllowN(1, now);
    }

    method AllowN(n: int, now: int) returns (ok: bool)
      modifies this
      ensures Outcome(State(), ok) == Step(Config(), old(State()), Call(n, now))
    {
      if n <= 0 {
        return true;
      }
      var elapsed := now - windowStart;
      if elapsed >= window {
        var windowsPassed := elapsed / window;
        if windowsPassed == 1 {
          prevCount := currCount;
        } else {
          prevCount := 0;
        }
        currCount := 0;
        windowStart := windowStart + windowsPassed * window;
        elapsed := now - windowStart;
      }
      var overlap := (window - elapsed) as real / window as real;
      var estimate := prevCount as real * overlap + currCount as real;
      if estimate + n as real <= limit as real + AdmitEpsilon(limit as real, ADMIT_EPSILON_REL) {
        currCount := currCount + n;
        return true;
      }
      return false;
    }
  }

  // ---------------------------------------------------------------- fixed windows and division

  lemma MultipleAtLeast(k: int, w: Span)
    requires k >= 1
    ensures k * w >= w
  {
    assert (k - 1) * w >= 0;
  }

  lemma QuotientUnique(q: int, r: int, w: Span)
    requires 0 <= r < w
    ensures (q * w + r) / w == q
  {
    var q' := (q * w + r) / w;
    var r' := (q * w + r) % w;
    assert q' * w + r' == q * w + r;
    assert (q - q') * w == q * w - q' * w;
    assert (q' - q) * w == q' * w - q * w;
    if q' < q {
      MultipleAtLeast(q - q', w);
    } else if q' > q {
      MultipleAtLeast(q' - q, w);
    }
  }

  lemma DivideShifted(x: int, k: int, w: Span)
    ensures (x + k * w) / w == x / w + k
  {
    assert x + k * w == (x / w + k) * w + x % w by {
      assert x == (x / w) * w + x % w;
      assert (x / w + k) * w == (x / w) * w + k * w;
    }
    QuotientUnique(x / w + k, x % w, w);
  }

  /** The start of the fixed window that holds t. */
  function WindowStart(p: Params, origin: int, t: int): int {
    t - (t - origin) % p.window
  }

  lemma WindowHolds(p: Params, origin: int, t: int)
    ensures WindowStart(p, origin, t) <= t < WindowStart(p, origin, t) + p.window
  {
  }

  /** A fixed window starts a whole number of windows after the origin. */
  lemma WindowAligned(p: Params, origin: int, t: int)
    ensures WindowStart(p, origin, t) == origin + (t - origin) / p.window * p.window
  {
  }

  lemma WholeWindows(p: Params, origin: int, t: int)
    ensures (WindowStart(p, origin, t) - origin) % p.window == 0
  {
    var k := (t - origin) / p.window;
    WindowAligned(p, origin, t);
    QuotientUnique(k, 0, p.window);
    assert k * p.window + 0 == WindowStart(p, origin, t) - origin;
    assert (k * p.window) % p.window == 0;
  }

  /** Rolling finds the fixed window of now, and says how many windows were crossed. */
  lemma RollFinds(p: Params, origin: int, s: Counters, t: int, now: int)
    requires s.start == WindowStart(p, origin, t) && t <= now
    ensures Roll(p, s, now).start == WindowStart(p, origin, now)
    ensures Roll(p, s, now).start == s.start + (now - s.start) / p.window * p.window
    ensures now - s.start >= 0 && (now - s.start < p.window <==> (now - s.start) / p.window == 0)
  {
    WindowHolds(p, origin, t);
    WindowAligned(p, origin, t);
    WindowAligned(p, origin, now);
    var k := (t - origin) / p.window;
    var elapsed := now - s.start;
    DivideShifted(elapsed, k, p.window);
    assert elapsed + k * p.window == now - origin;
    assert (elapsed / p.window + k) * p.window == elapsed / p.window * p.window + k * p.window;
    if elapsed < p.window {
      QuotientUnique(0, elapsed, p.window);
    } else {
      assert elapsed / p.window >= 1;
    }
  }

  /** Rolling in two stages is rolling once. */
  lemma RollComposes(p: Params, s: Counters, mid: int, now: int)
    requires s.start <= mid <= now
    ensures Roll(p, Roll(p, s, mid), now) == Roll(p, s, now)
  {
    var a, r := mid - s.start, Roll(p, s, mid);
    var k := a / p.window;
    QuotientUnique(0, 0, p.window);
    assert s.start == WindowStart(p, s.start, s.start);
    RollFinds(p, s.start, s, s.start, mid);
    RollFinds(p, s.start, r, mid, now);
    RollFinds(p, s.start, s, s.start, now);
    WindowHolds(p, s.start, mid);
    DivideShifted(now - r.start, k, p.window);
    assert now - s.start == now - r.start + k * p.window;
  }

  // ---------------------------------------------------------------- the log of admissions

  /** Units of the log admitted at a time in [lo, hi). */
  function UnitsIn(log: seq<Call>, lo: int, hi: int): int {
    if log == [] then 0 else
    var e := log[|log| - 1];
    UnitsIn(log[..|log| - 1], lo, hi) + if lo <= e.now < hi then e.n else 0
  }

  /** The log a run leaves behind when it starts with the given log. */
  function Log(p: Params, s: Counters, log: seq<Call>, calls: seq<Call>): seq<Call>
    decreases |calls|
  {
    if calls == [] then log else
    var o := Step(p, s, calls[0]);
    Log(p, o.state, if o.ok && calls[0].n > 0 then log + [calls[0]] else log, calls[1..])
  }

  /** The two counters read off a log at time t. */
  function CountersOf(p: Params, origin: int, log: seq<Call>, t: int): Counters {
    var start := WindowStart(p, origin, t);
    Counters(start, UnitsIn(log, start - p.window, start), UnitsIn(log, start, start + p.window))
  }

  /** The admission test, stated on the log alone. */
  predicate Fits(p: Params, origin: int, log: seq<Call>, e: Call) {
    Estimate(p, CountersOf(p, origin, log, e.now), e.now) + e.n as real <= Ceiling(p)
  }

  /** A log whose every entry was admitted by the test, in time order. */
  ghost predicate Justified(p: Params, origin: int, log: seq<Call>) {
    log == [] ||
    var front, e := log[..|log| - 1], log[|log| - 1];
    && Justified(p, origin, front)
    && e.n > 0
    && (forall x <- log :: origin <= x.now <= e.now)
    && Fits(p, origin, front, e)
  }

  /** The counters are those of the log, at the time of the latest reading. */
  ghost predicate Faithful(p: Params, origin: int, s: Counters, log: seq<Call>, t: int) {
    && origin <= t
    && s == CountersOf(p, origin, log, t)
    && Justified(p, origin, log)
    && (forall x <- log :: x.now <= t)
  }

  lemma {:induction false} PositiveUnits(p: Params, origin: int, log: seq<Call>)
    requires Justified(p, origin, log)
    ensures forall x <- log :: origin <= x.now && x.n > 0
    decreases |log|
  {
    if log != [] {
      PositiveUnits(p, origin, log[..|log| - 1]);
      assert log == log[..|log| - 1] + [log[|log| - 1]];
    }
  }

  /** If every entry in one range is also in another, the other holds at least as many units. */
  lemma {:induction false} UnitsInWider(log: seq<Call>, lo: int, hi: int, lo': int, hi': int)
    requires forall x <- log :: x.n > 0 && (lo <= x.now < hi ==> lo' <= x.now < hi')
    ensures 0 <= UnitsIn(log, lo, hi) <= UnitsIn(log, lo', hi')
    decreases |log|
  {
    if log != [] {
      assert forall x <- log[..|log| - 1] :: x in log;
      assert log[|log| - 1] in log;
      UnitsInWider(log[..|log| - 1], lo, hi, lo', hi');
    }
  }

  lemma {:induction false} UnitsInSplits(log: seq<Call>, lo: int, mid: int, hi: int)
    requires lo <= mid <= hi
    ensures UnitsIn(log, lo, hi) == UnitsIn(log, lo, mid) + UnitsIn(log, mid, hi)
    decreases |log|
  {
    if log != [] {
      UnitsInSplits(log[..|log| - 1], lo, mid, hi);
    }
  }

  lemma {:induction false} UnitsInEmptyRange(log: seq<Call>, lo: int, hi: int)
    requires forall x <- log :: !(lo <= x.now < hi)
    ensures UnitsIn(log, lo, hi) == 0
    decreases |log|
  {
    if log != [] {
      assert forall x <- log[..|log| - 1] :: x in log;
      assert log[|log| - 1] in log;
      UnitsInEmptyRange(log[..|log| - 1], lo, hi);
    }
  }

  /** Rolling the counters of a log gives its counters at the later time, however many windows
      are crossed. */
  lemma RollKeepsCounters(p: Params, origin: int, log: seq<Call>, t: int, now: int)
    requires t <= now && forall x <- log :: x.now <= t
    ensures Roll(p, CountersOf(p, origin, log, t), now) == CountersOf(p, origin, log, now)
  {
    var s := CountersOf(p, origin, log, t);
    var r, passed := Roll(p, s, now), (now - s.start) / p.window;
    RollFinds(p, origin, s, t, now);
    WindowHolds(p, origin, t);
    if passed == 1 {
      assert r.start == s.start + p.window;
      UnitsInEmptyRange(log, r.start, r.start + p.window);
    } else if passed > 1 {
      MultipleAtLeast(passed - 1, p.window);
      assert passed * p.window == (passed - 1) * p.window + p.window;
      UnitsInEmptyRange(log, r.start, r.start + p.window);
      UnitsInEmptyRange(log, r.start - p.window, r.start);
    }
  }

  /** Logging an admitted batch raises the current count by it, and keeps the log justified. */
  lemma AdmissionIsCounted(p: Params, origin: int, log: seq<Call>, c: Call)
    requires Justified(p, origin, log) && origin <= c.now && (forall x <- log :: x.now <= c.now)
    requires c.n > 0 && Fits(p, origin, log, c)
    ensures Justified(p, origin, log + [c])
    ensures var s := CountersOf(p, origin, log, c.now);
      CountersOf(p, origin, log + [c], c.now) == s.(curr := s.curr + c.n)
  {
    PositiveUnits(p, origin, log);
    WindowHolds(p, origin, c.now);
    assert (log + [c])[..|log|] == log;
  }

  /** One call keeps the counters equal to those of the log, with the call logged if admitted. */
  lemma StepKeepsCounters(p: Params, origin: int, s: Counters, log: seq<Call>, t: int, c: Call)
    requires Faithful(p, origin, s, log, t) && Readable(t, c)
    ensures var o := Step(p, s, c);
      Faithful(p, origin, o.state, if o.ok && c.n > 0 then log + [c] else log, After(t, c))
  {
    if c.n > 0 {
      RollKeepsCounters(p, origin, log, t, c.now);
      if Fits(p, origin, log, c) {
        AdmissionIsCounted(p, origin, log, c);
      }
    }
  }

  /** After every call of every run the counters equal the units the log holds in the current and
      in the previous fixed window, and the window start is a whole number of windows from the
      origin; the log's entries are exactly those the test admits. */
  lemma {:induction false} CountersAgreeWithLog(p: Params, origin: int, s: Counters, log: seq<Call>, t: int,
                                                calls: seq<Call>)
    requires Faithful(p, origin, s, log, t) && Ordered(calls, t)
    ensures Faithful(p, origin, Final(Policy(p), s, calls), Log(p, s, log, calls), LastReading(calls, t))
    decreases |calls|
  {
    if calls != [] {
      var c, o := calls[0], Step(p, s, calls[0]);
      assert Policy(p)(s, c) == o;
      StepKeepsCounters(p, origin, s, log, t, c);
      CountersAgreeWithLog(p, origin, o.state, if o.ok && c.n > 0 then log + [c] else log, After(t, c), calls[1..]);
    }
  }

  lemma FreshIsFaithful(p: Params, origin: int)
    ensures Faithful(p, origin, Fresh(origin), [], origin)
  {
    QuotientUnique(0, 0, p.window);
  }

  /** The calls that ask for something. */
  function Spending(calls: seq<Call>): seq<Call> {
    if calls == [] then [] else (if calls[0].n > 0 then [calls[0]] else []) + Spending(calls[1..])
  }

  /** Granted batches of a positive size, one call at a time. */
  lemma SpendingCons(p: Params, s: Counters, calls: seq<Call>)
    requires calls != []
    ensures var c, o := calls[0], Step(p, s, calls[0]);
      Spending(GrantedBy(Policy(p), s, calls))
      == (if o.ok && c.n > 0 then [c] else []) + Spending(GrantedBy(Policy(p), o.state, calls[1..]))
  {
    var c, o := calls[0], Policy(p)(s, calls[0]);
    var rest := GrantedBy(Policy(p), o.state, calls[1..]);
    assert Verdicts(Policy(p), s, calls)[1..] == Verdicts(Policy(p), o.state, calls[1..]);
    assert [] + rest == rest && ([c] + rest)[1..] == rest;
    assert [] + Spending(rest) == Spending(rest);
  }

  /** Logging the first call of a run. */
  lemma LogStep(p: Params, s: Counters, log: seq<Call>, calls: seq<Call>)
    requires calls != []
    ensures var c, o := calls[0], Step(p, s, calls[0]);
      Log(p, s, log, calls) == Log(p, o.state, log + if o.ok && c.n > 0 then [c] else [], calls[1..])
  {
    assert log + [] == log;
  }

  /** The log is what the verdicts say: the granted batches of a positive size, in order. */
  lemma {:induction false} LogIsGranted(p: Params, s: Counters, log: seq<Call>, calls: seq<Call>)
    ensures Log(p, s, log, calls) == log + Spending(GrantedBy(Policy(p), s, calls))
    decreases |calls|
  {
    if calls != [] {
      var c, o := calls[0], Step(p, s, calls[0]);
      var kept := if o.ok && c.n > 0 then [c] else [];
      var rest := Spending(GrantedBy(Policy(p), o.state, calls[1..]));
      LogStep(p, s, log, calls);
      LogIsGranted(p, o.state, log + kept, calls[1..]);
      SpendingCons(p, s, calls);
      assert log + kept + rest == log + (kept + rest);
    }
  }

  /** What the counters say of a log: the window starts a whole number of windows after the origin
      and holds t, and the counts are the log's units in that window and in the one before. */
  predicate Agree(p: Params, origin: int, s: Counters, log: seq<Call>, t: int) {
    && (s.start - origin) % p.window == 0 && s.start <= t < s.start + p.window
    && s.curr == UnitsIn(log, s.start, s.start + p.window)
    && s.prev == UnitsIn(log, s.start - p.window, s.start)
  }

  lemma CountersOfAgree(p: Params, origin: int, log: seq<Call>, t: int)
    ensures Agree(p, origin, CountersOf(p, origin, log, t), log, t)
  {
    WindowHolds(p, origin, t);
    WholeWindows(p, origin, t);
  }

  /** The same on a run from the constructor, spelt out, with the log of the batches granted. */
  lemma CountersOnEveryRun(p: Params, origin: int, calls: seq<Call>)
    requires Ordered(calls, origin)
    ensures Agree(p, origin, Final(Policy(p), Fresh(origin), calls),
                  Spending(GrantedBy(Policy(p), Fresh(origin), calls)), LastReading(calls, origin))
  {
    FreshIsFaithful(p, origin);
    CountersAgreeWithLog(p, origin, Fresh(origin), [], origin, calls);
    LogIsGranted(p, Fresh(origin), [], calls);
    var log := Spending(GrantedBy(Policy(p), Fresh(origin), calls));
    assert [] + log == log;
    CountersOfAgree(p, origin, log, LastReading(calls, origin));
  }

  // ---------------------------------------------------------------- denials and the passing of time

  predicate SameWindows(p: Params, late: Counters, early: Counters, t: int) {
    late.start <= t && early.start <= t && Roll(p, late, t) == Roll(p, early, t)
  }

  lemma RollStartsBefore(p: Params, s: Counters, now: int)
    requires s.start <= now
    ensures s.start <= Roll(p, s, now).start <= now < Roll(p, s, now).start + p.window
  {
    QuotientUnique(0, 0, p.window);
    assert s.start == WindowStart(p, s.start, s.start);
    RollFinds(p, s.start, s, s.start, now);
    WindowHolds(p, s.start, now);
    assert (now - s.start) / p.window * p.window >= 0;
  }

  lemma SameWindowsAbsorbs(p: Params)
    ensures AbsorbsDenials(Policy(p), (s, r, t) => SameWindows(p, s, r, t))
  {
    forall s, r, t, c | SameWindows(p, s, r, t) && Readable(t, c)
      ensures Policy(p)(s, c).ok == Policy(p)(r, c).ok
      ensures SameWindows(p, Policy(p)(s, c).state,
                          if Policy(p)(s, c).ok then Policy(p)(r, c).state else r, After(t, c))
    {
      if c.n > 0 {
        RollComposes(p, s, t, c.now);
        RollComposes(p, r, t, c.now);
        RollComposes(p, r, c.now, c.now);
        RollStartsBefore(p, r, c.now);
      }
    }
  }

  /** Deleting every denied call from an ordered run leaves all other verdicts as they were. */
  lemma DeniedCallsInvisible(p: Params, origin: int, calls: seq<Call>)
    requires Ordered(calls, origin)
    ensures var kept := GrantedBy(Policy(p), Fresh(origin), calls);
      && false !in Verdicts(Policy(p), Fresh(origin), kept)
      && SameWindows(p, Final(Policy(p), Fresh(origin), calls), Final(Policy(p), Fresh(origin), kept),
                     LastReading(calls, origin))
  {
    SameWindowsAbsorbs(p);
    DenialsInvisible(Policy(p), (s, r, t) => SameWindows(p, s, r, t), Fresh(origin), Fresh(origin), origin, calls);
  }

  function EstimateAt(p: Params, s: Counters, t: int): real {
    Estimate(p, Roll(p, s, t), t)
  }

  /** The two ways a roll can change counters: not at all, or leaving at most the current count
      as the new previous count. */
  lemma RollOutcome(p: Params, s: Counters, now: int)
    requires s.start <= now && s.curr >= 0
    ensures var r := Roll(p, s, now); r == s || (r.curr == 0 && 0 <= r.prev <= s.curr)
  {
  }

  lemma EstimateFalls(p: Params, r: Counters, t: int, r': Counters, t': int)
    requires 0 <= t - r.start < p.window && 0 <= t' - r'.start < p.window && t <= t'
    requires r.prev >= 0 && r.curr >= 0
    requires r' == r || (r'.curr == 0 && 0 <= r'.prev <= r.curr)
    ensures Estimate(p, r', t') <= Estimate(p, r, t)
  {
    OverlapBounds(p, t - r.start, t - r.start);
    OverlapBounds(p, t' - r'.start, t' - r'.start);
    if r' == r {
      OverlapBounds(p, t - r.start, t' - r.start);
    }
    WeightedFalls(r.prev as real, Overlap(p, t - r.start), r.curr as real,
                  r'.prev as real, Overlap(p, t' - r'.start), r'.curr as real);
  }

  lemma WeightedFalls(prev: real, overlap: real, curr: real, prev': real, overlap': real, curr': real)
    requires prev >= 0.0 && overlap >= 0.0 && 0.0 <= prev' && 0.0 <= overlap' <= 1.0
    requires (prev' == prev && overlap' <= overlap && curr' == curr) || (prev' <= curr && curr' == 0.0)
    ensures prev' * overlap' + curr' <= prev * overlap + curr
  {
    if prev' == prev && overlap' <= overlap && curr' == curr {
      ScaleBounds(prev, overlap', overlap);
      assert prev' * overlap' == prev * overlap';
    } else {
      assert prev * overlap >= 0.0;
      assert prev' * (1.0 - overlap') >= 0.0;
      assert prev' * overlap' == prev' - prev' * (1.0 - overlap');
    }
  }

  /** Time alone never raises the estimate, within a window, across one rollover or across many;
      so a batch that would be admitted now would still be admitted later. */
  lemma EstimateNeverRises(p: Params, s: Counters, t: int, t': int, n: int)
    requires s.prev >= 0 && s.curr >= 0 && s.start <= t <= t'
    ensures EstimateAt(p, s, t') <= EstimateAt(p, s, t)
    ensures Step(p, s, Call(n, t)).ok ==> Step(p, s, Call(n, t')).ok
  {
    var r, r' := Roll(p, s, t), Roll(p, s, t');
    RollComposes(p, s, t, t');
    RollStartsBefore(p, s, t);
    RollStartsBefore(p, r, t');
    RollOutcome(p, s, t);
    RollOutcome(p, r, t');
    EstimateFalls(p, r, t, r', t');
  }

  /** The overlap shrinks from one to just above zero as the fixed window passes. */
  lemma OverlapBounds(p: Params, elapsed: int, later: int)
    requires 0 <= elapsed <= later < p.window
    ensures 0.0 < Overlap(p, later) <= Overlap(p, elapsed) <= 1.0
    ensures Overlap(p, elapsed) * p.window as real == p.window as real - elapsed as real
  {
    var w := p.window as real;
    RatioBounds((p.window - later) as real, (p.window - elapsed) as real, w);
    assert (p.window - elapsed) as real == w - elapsed as real;
  }

  lemma RatioBounds(a: real, b: real, w: real)
    requires 0.0 < a <= b <= w
    ensures 0.0 < a / w <= b / w <= 1.0
    ensures b / w * w == b
  {
  }
  // ---------------------------------------------------------------- the exact verdict

  /** So many units in the previous fixed window, weighted by the part of it that is still within one
      window of the reading, and the rest in full, are within the limit and its slack; multiplied by
      the window. */
  predicate WithinLimit(p: Params, prev: int, rest: int, elapsed: int) {
    prev as real * (p.window - elapsed) as real + rest as real * p.window as real
    <= p.limit as real * (1.0 + p.eps) * p.window as real
  }

  /** A batch is within the limit, given the log and the start of the fixed window of its reading. */
  predicate AdmitsIn(p: Params, log: seq<Call>, start: int, c: Call) {
    WithinLimit(p, UnitsIn(log, start - p.window, start), UnitsIn(log, start, start + p.window) + c.n, c.now - start)
  }

  /** The rule of the sliding window, stated on the granted batches alone. */
  predicate Admits(p: Params, origin: int, calls: seq<Call>, oks: seq<bool>, c: Call) {
    c.n <= 0
    || (|oks| == |calls| && AdmitsIn(p, Spending(Granted(calls, oks)), c.now - (c.now - origin) % p.window, c))
  }

  function SlidingRule(p: Params, origin: int): Rule {
    (calls, oks, c) => Admits(p, origin, calls, oks, c)
  }

  lemma EstimateIsWeighted(p: Params, s: Counters, n: int, now: int)
    ensures Estimate(p, s, now) + n as real <= Ceiling(p) <==> WithinLimit(p, s.prev, s.curr + n, now - s.start)
  {
    var w, part := p.window as real, (p.window - (now - s.start)) as real;
    assert part / w * w == part;
    Weighted(s.prev as real, part / w, part, (s.curr + n) as real, p.limit as real, p.eps, w);
  }

  lemma Weighted(prev: real, overlap: real, part: real, rest: real, limit: real, eps: real, w: real)
    requires w > 0.0 && overlap * w == part
    ensures prev * overlap + rest <= limit + limit * eps <==> prev * part + rest * w <= limit * (1.0 + eps) * w
  {
    var room := limit + limit * eps - (prev * overlap + rest);
    assert limit + limit * eps == limit * (1.0 + eps);
    assert room * w == limit * (1.0 + eps) * w - (prev * (overlap * w) + rest * w);
    SignOfProduct(room, w);
  }

  /** The counters that a later call sees are those of the granted batches. */
  lemma CountersAtTheEnd(p: Params, origin: int, calls: seq<Call>, now: int)
    requires Ordered(calls, origin) && LastReading(calls, origin) <= now
    ensures Roll(p, Final(Policy(p), Fresh(origin), calls), now)
            == CountersOf(p, origin, Spending(GrantedBy(Policy(p), Fresh(origin), calls)), now)
  {
    var log := Spending(GrantedBy(Policy(p), Fresh(origin), calls));
    FreshIsFaithful(p, origin);
    CountersAgreeWithLog(p, origin, Fresh(origin), [], origin, calls);
    LogIsGranted(p, Fresh(origin), [], calls);
    assert [] + log == log;
    RollKeepsCounters(p, origin, log, LastReading(calls, origin), now);
  }

  lemma FitsInItsWindow(p: Params, origin: int, log: seq<Call>, c: Call)
    ensures Fits(p, origin, log, c) <==> AdmitsIn(p, log, WindowStart(p, origin, c.now), c)
  {
    EstimateIsWeighted(p, CountersOf(p, origin, log, c.now), c.n, c.now);
  }

  lemma DecidesByTheRule(p: Params, origin: int, calls: seq<Call>, c: Call)
    requires Ordered(calls, origin) && Readable(LastReading(calls, origin), c)
    ensures Step(p, Final(Policy(p), Fresh(origin), calls), c).ok
            == Admits(p, origin, calls, Verdicts(Policy(p), Fresh(origin), calls), c)
  {
    if c.n > 0 {
      CountersAtTheEnd(p, origin, calls, c.now);
      FitsInItsWindow(p, origin, Spending(GrantedBy(Policy(p), Fresh(origin), calls)), c);
    }
  }

  /** The verdicts of every ordered run, for any limit and slack, are those of the rule, and no others. */
  lemma VerdictsAreExact(p: Params, origin: int, calls: seq<Call>, oks: seq<bool>)
    requires Ordered(calls, origin) && |oks| == |calls|
    ensures oks == Verdicts(Policy(p), Fresh(origin), calls) <==> Obeys(SlidingRule(p, origin), calls, oks)
  {
    forall i | 0 <= i < |calls|
      ensures Policy(p)(Final(Policy(p), Fresh(origin), calls[..i]), calls[i]).ok
              == SlidingRule(p, origin)(calls[..i], Verdicts(Policy(p), Fresh(origin), calls[..i]), calls[i])
    {
      OrderedPrefix(calls, i, origin);
      DecidesByTheRule(p, origin, calls[..i], calls[i]);
    }
    OnlyVerdictsObey(Policy(p), Fresh(origin), SlidingRule(p, origin), calls, oks);
  }
}
