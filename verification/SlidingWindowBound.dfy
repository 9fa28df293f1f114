/** How much the two-counter estimate can let through in one trailing window: the worst case on
    every run, and exactly which configurations keep every trailing window within the limit. */
module SlidingWindowBounds {
  import opened Limits
  import opened Runs
  import opened SlidingWindows

  /** Units admitted in the trailing window (t - window, t]. */
  function Trailing(p: Params, log: seq<Call>, t: int): int {
    UnitsIn(log, t - p.window + 1, t + 1)
  }

  /** The log as it stood at the instant t. */
  function Upto(log: seq<Call>, t: int): seq<Call> {
    if log == [] || log[|log| - 1].now <= t then log else Upto(log[..|log| - 1], t)
  }

  /** How far into its fixed window the last admission up to t came; 0 when there was none. */
  function LastOffset(p: Params, origin: int, log: seq<Call>, t: int): int {
    var l := Upto(log, t);
    if l == [] then 0 else l[|l| - 1].now - WindowStart(p, origin, l[|l| - 1].now)
  }

  /** The admissions of a run from the constructor: by LogIsGranted, its granted batches. */
  function RunLog(p: Params, origin: int, calls: seq<Call>): seq<Call> {
    Log(p, Fresh(origin), [], calls)
  }

  lemma {:induction false} UptoIsJustified(p: Params, origin: int, log: seq<Call>, t: int)
    requires Justified(p, origin, log)
    ensures Justified(p, origin, Upto(log, t))
    ensures Trailing(p, Upto(log, t), t) == Trailing(p, log, t)
    ensures var l := Upto(log, t); l != [] ==> l[|l| - 1].now <= t
    decreases |log|
  {
    if log != [] && log[|log| - 1].now > t {
      UptoIsJustified(p, origin, log[..|log| - 1], t);
    }
  }

  /** No fixed window ever admits more than the ceiling. */
  lemma {:induction false} FixedWindowBound(p: Params, origin: int, log: seq<Call>, start: int, t: int)
    requires Justified(p, origin, log) && start == WindowStart(p, origin, t)
    ensures UnitsIn(log, start, start + p.window) as real <= Max(0.0, Ceiling(p))
    decreases |log|
  {
    if log != [] {
      var front, e := log[..|log| - 1], log[|log| - 1];
      FixedWindowBound(p, origin, front, start, t);
      if start <= e.now < start + p.window {
        SameWindow(p, origin, t, e.now);
        TestBounds(p, origin, front, e);
      }
    }
  }

  lemma SameWindow(p: Params, origin: int, t: int, u: int)
    requires WindowStart(p, origin, t) <= u < WindowStart(p, origin, t) + p.window
    ensures WindowStart(p, origin, u) == WindowStart(p, origin, t)
  {
    var k := (t - origin) / p.window;
    WindowAligned(p, origin, t);
    WindowAligned(p, origin, u);
    QuotientUnique(k, u - origin - k * p.window, p.window);
  }

  /** The window before a fixed window is a fixed window. */
  lemma WindowBefore(p: Params, origin: int, t: int)
    ensures var start := WindowStart(p, origin, t);
      WindowStart(p, origin, start - p.window) == start - p.window
  {
    var k := (t - origin) / p.window;
    var start := WindowStart(p, origin, t);
    WindowAligned(p, origin, t);
    WindowAligned(p, origin, start - p.window);
    assert k * p.window - p.window == (k - 1) * p.window + 0;
    QuotientUnique(k - 1, 0, p.window);
  }

  /** Passing the admission test, cleared of its division. */
  predicate Tested(p: Params, prev: int, rest: int, offset: int) {
    && rest as real <= Ceiling(p)
    && prev as real * (p.window as real - offset as real) + rest as real * p.window as real
       <= Ceiling(p) * p.window as real
  }

  /** What passing the test says about the two fixed windows of the admitted batch. */
  lemma TestBounds(p: Params, origin: int, front: seq<Call>, e: Call)
    requires Justified(p, origin, front) && Fits(p, origin, front, e)
    ensures var s := CountersOf(p, origin, front, e.now);
      && s.prev >= 0 && s.curr >= 0
      && Tested(p, s.prev, s.curr + e.n, e.now - s.start)
  {
    var s := CountersOf(p, origin, front, e.now);
    PositiveUnits(p, origin, front);
    UnitsInWider(front, s.start - p.window, s.start, s.start - p.window, s.start);
    UnitsInWider(front, s.start, s.start + p.window, s.start, s.start + p.window);
    WindowHolds(p, origin, e.now);
    EstimateTests(p, s, e);
  }

  lemma EstimateTests(p: Params, s: Counters, e: Call)
    requires s.prev >= 0 && 0 <= e.now - s.start < p.window
    requires Estimate(p, s, e.now) + e.n as real <= Ceiling(p)
    ensures Tested(p, s.prev, s.curr + e.n, e.now - s.start)
  {
    var elapsed := e.now - s.start;
    OverlapBounds(p, elapsed, elapsed);
    ClearDenominator(s.prev as real, Overlap(p, elapsed), p.window as real - elapsed as real,
                     (s.curr + e.n) as real, Ceiling(p), p.window as real);
  }

  lemma ClearDenominator(prev: real, overlap: real, part: real, rest: real, ceiling: real, w: real)
    requires prev >= 0.0 && overlap >= 0.0 && w > 0.0 && prev * overlap + rest <= ceiling
    requires overlap * w == part
    ensures rest <= ceiling
    ensures prev * part + rest * w <= ceiling * w
  {
    assert prev * overlap >= 0.0;
    assert prev * (overlap * w) + rest * w == (prev * overlap + rest) * w;
  }

  /** Units of the previous fixed window still trailing at t, for a log ending at t or before. */
  function Carried(p: Params, origin: int, log: seq<Call>, t: int): int
    requires log != []
  {
    UnitsIn(log, t - p.window + 1, WindowStart(p, origin, log[|log| - 1].now))
  }

  /** The trailing window splits into what the last admission's test saw in full and what it only
      saw weighted. */
  lemma TrailingSplit(p: Params, origin: int, log: seq<Call>, t: int)
    requires Justified(p, origin, log) && log != [] && log[|log| - 1].now <= t
    ensures var e := log[|log| - 1];
      var s := CountersOf(p, origin, log[..|log| - 1], e.now);
      && Trailing(p, log, t) <= Carried(p, origin, log, t) + s.curr + e.n
      && 0 <= Carried(p, origin, log, t) <= s.prev
      && Carried(p, origin, log, t) as real <= Max(0.0, Ceiling(p))
      && (e.now - s.start == p.window - 1 ==> Carried(p, origin, log, t) == 0)
  {
    var front, e := log[..|log| - 1], log[|log| - 1];
    var start := WindowStart(p, origin, e.now);
    var lo := t - p.window + 1;
    WindowHolds(p, origin, e.now);
    PositiveUnits(p, origin, log);
    UnitsInWider(log, lo, start, start - p.window, start);
    assert UnitsIn(log, start - p.window, start) == UnitsIn(front, start - p.window, start);
    assert UnitsIn(log, start, start + p.window) == UnitsIn(front, start, start + p.window) + e.n;
    if lo <= start {
      UnitsInSplits(log, lo, start, t + 1);
      UnitsInWider(log, start, t + 1, start, start + p.window);
    } else {
      UnitsInWider(log, lo, t + 1, start, start + p.window);
    }
    WindowBefore(p, origin, e.now);
    FixedWindowBound(p, origin, log, start - p.window, start - p.window);
    if e.now - start == p.window - 1 {
      UnitsInEmptyRange(log, lo, start);
    }
  }

  /** The bound in terms of what is carried over and the offset of the last admission. */
  predicate Bounded(p: Params, trailing: int, carried: int, offset: int) {
    trailing as real * p.window as real <= Ceiling(p) * p.window as real + carried as real * offset as real
  }

  lemma TrailingBound(p: Params, origin: int, log: seq<Call>, t: int)
    requires Justified(p, origin, log) && log != [] && log[|log| - 1].now <= t
    ensures Bounded(p, Trailing(p, log, t), Carried(p, origin, log, t),
                    log[|log| - 1].now - WindowStart(p, origin, log[|log| - 1].now))
  {
    var front, e := log[..|log| - 1], log[|log| - 1];
    var s := CountersOf(p, origin, front, e.now);
    TrailingSplit(p, origin, log, t);
    TestBounds(p, origin, front, e);
    WindowHolds(p, origin, e.now);
    Reweigh(p, Trailing(p, log, t), Carried(p, origin, log, t), s.prev, s.curr + e.n, e.now - s.start);
  }

  lemma Reweigh(p: Params, trailing: int, carried: int, prev: int, rest: int, offset: int)
    requires trailing <= carried + rest && carried <= prev && 0 <= offset < p.window
    requires Tested(p, prev, rest, offset)
    ensures Bounded(p, trailing, carried, offset)
  {
    ReweighReal(trailing as real, carried as real, prev as real, rest as real, Ceiling(p),
                p.window as real, offset as real);
  }

  lemma ReweighReal(trailing: real, carried: real, prev: real, rest: real, ceiling: real, w: real, offset: real)
    requires trailing <= carried + rest && carried <= prev && 0.0 <= offset <= w && w > 0.0
    requires prev * (w - offset) + rest * w <= ceiling * w
    ensures trailing * w <= ceiling * w + carried * offset
  {
    ScaleBounds(w - offset, carried, prev);
    ScaleBounds(w, trailing, carried + rest);
    assert w * (carried + rest) == (w - offset) * carried + carried * offset + rest * w;
  }

  lemma SpreadAt(p: Params, origin: int, log: seq<Call>, t: int)
    requires p.limit >= 1 && p.eps >= 0.0 && Justified(p, origin, log) && log != [] && log[|log| - 1].now <= t
    ensures var offset := log[|log| - 1].now - WindowStart(p, origin, log[|log| - 1].now);
      0 <= offset < p.window && WithinSpread(p, Trailing(p, log, t), offset)
  {
    CeilingNotNegative(p);
    WindowHolds(p, origin, log[|log| - 1].now);
    TrailingSplit(p, origin, log, t);
    TrailingBound(p, origin, log, t);
    Spread(p, Trailing(p, log, t), Carried(p, origin, log, t),
           log[|log| - 1].now - WindowStart(p, origin, log[|log| - 1].now));
  }

  /** The worst case at every instant of every run: the trailing window holds at most
      ceiling * (1 + e / window) units, where e < window is the offset of the last admission in its
      fixed window. Both sides are multiplied by the window. */
  lemma WorstCase(p: Params, origin: int, calls: seq<Call>, t: int)
    requires p.limit >= 1 && p.eps >= 0.0 && Ordered(calls, origin)
    ensures var log := RunLog(p, origin, calls);
      && 0 <= LastOffset(p, origin, log, t) < p.window
      && WithinSpread(p, Trailing(p, log, t), LastOffset(p, origin, log, t))
  {
    var log := RunLog(p, origin, calls);
    RunLogIsJustified(p, origin, calls);
    UptoIsJustified(p, origin, log, t);
    if Upto(log, t) == [] {
      CeilingNotNegative(p);
      ScaleBounds(p.window as real, 0.0, Ceiling(p));
    } else {
      SpreadAt(p, origin, Upto(log, t), t);
    }
  }

  /** trailing <= ceiling * (1 + offset / window), multiplied by the window. */
  predicate WithinSpread(p: Params, trailing: int, offset: int) {
    trailing as real * p.window as real <= Ceiling(p) * (p.window as real + offset as real)
  }

  lemma CeilingNotNegative(p: Params)
    requires p.limit >= 1 && p.eps >= 0.0
    ensures Ceiling(p) >= p.limit as real && (p.eps == 0.0 ==> Ceiling(p) == p.limit as real)
  {
    ScaleBounds(p.limit as real, 0.0, p.eps);
  }

  lemma Spread(p: Params, trailing: int, carried: int, offset: int)
    requires Bounded(p, trailing, carried, offset) && carried as real <= Ceiling(p) && offset >= 0
    ensures WithinSpread(p, trailing, offset)
  {
    var ceiling, w, x := Ceiling(p), p.window as real, offset as real;
    ScaleBounds(x, carried as real, ceiling);
    assert ceiling * (w + x) == ceiling * w + x * ceiling;
  }

  lemma RunLogIsJustified(p: Params, origin: int, calls: seq<Call>)
    requires Ordered(calls, origin)
    ensures Justified(p, origin, RunLog(p, origin, calls))
  {
    FreshIsFaithful(p, origin);
    CountersAgreeWithLog(p, origin, Fresh(origin), [], origin, calls);
  }

  /** The most that any trailing window can hold: the whole units under the ceiling, admitted at the
      last instant of a fixed window, and the room that the weighted remainder of them leaves two
      instants before the next one ends. */
  function Most(p: Params): int {
    if p.limit <= 0 then 0 else
    var full := Ceiling(p).Floor;
    if p.window == 1 then full else full + Room(p, full)
  }

  function Room(p: Params, full: int): int {
    (Ceiling(p) - 2.0 * full as real / p.window as real).Floor
  }

  /** What is carried over and what is admitted later fit under the ceiling, cleared of the division. */
  predicate FitsAfter(p: Params, full: int, later: int) {
    2.0 * full as real + later as real * p.window as real <= Ceiling(p) * p.window as real
  }

  /** The room is the largest batch that fits. */
  lemma RoomIsLargest(p: Params, full: int, later: int)
    ensures FitsAfter(p, full, later) <==> later <= Room(p, full)
  {
    var w := p.window as real;
    var share := 2.0 * full as real / w;
    assert share * w == 2.0 * full as real;
    assert (Ceiling(p) - share - later as real) * w == Ceiling(p) * w - share * w - later as real * w;
    SignOfProduct(Ceiling(p) - share - later as real, w);
  }

  lemma RoomNotNegative(p: Params)
    requires p.limit >= 1 && p.eps >= 0.0 && p.window >= 2
    ensures Room(p, Ceiling(p).Floor) >= 0
  {
    CeilingNotNegative(p);
    var full := Ceiling(p).Floor;
    ScaleBounds(Ceiling(p), 2.0, p.window as real);
    RoomIsLargest(p, full, 0);
  }

  /** With nothing carried over the ceiling itself is the bound. */
  lemma UnderCeiling(p: Params, trailing: int, offset: int)
    requires Bounded(p, trailing, 0, offset)
    ensures trailing <= Ceiling(p).Floor
  {
    var w := p.window as real;
    assert (Ceiling(p) - trailing as real) * w == Ceiling(p) * w - trailing as real * w;
    SignOfProduct(Ceiling(p) - trailing as real, w);
  }

  lemma WithinRoom(p: Params, trailing: int, carried: int, offset: int, full: int)
    requires Bounded(p, trailing, carried, offset) && 0 <= carried <= full && 0 <= offset <= p.window - 2
    ensures trailing - full <= Room(p, full)
  {
    var w := p.window as real;
    LittleCarried(carried as real, offset as real, full as real, w);
    assert (trailing - full) as real * w == trailing as real * w - full as real * w;
    RoomIsLargest(p, full, trailing - full);
  }

  lemma MostBounds(p: Params, trailing: int, carried: int, offset: int)
    requires p.limit >= 1 && p.eps >= 0.0 && Bounded(p, trailing, carried, offset)
    requires carried >= 0 && carried as real <= Ceiling(p)
    requires 0 <= offset < p.window && (offset == p.window - 1 ==> carried == 0)
    ensures trailing <= Most(p)
  {
    if carried == 0 {
      UnderCeiling(p, trailing, offset);
      if p.window >= 2 {
        RoomNotNegative(p);
      }
    } else {
      WithinRoom(p, trailing, carried, offset, Ceiling(p).Floor);
    }
  }

  lemma LittleCarried(carried: real, offset: real, full: real, w: real)
    requires 0.0 <= carried <= full && 0.0 <= offset <= w - 2.0
    ensures carried * offset <= full * w - 2.0 * full
  {
    ScaleBounds(offset, carried, full);
    ScaleBounds(full, offset, w - 2.0);
    assert full * (w - 2.0) == full * w - 2.0 * full;
  }

  /** At every instant of every run. */
  lemma TrailingAtMost(p: Params, origin: int, calls: seq<Call>, t: int)
    requires p.eps >= 0.0 && Ordered(calls, origin)
    ensures Trailing(p, RunLog(p, origin, calls), t) <= Most(p)
  {
    var log := RunLog(p, origin, calls);
    RunLogIsJustified(p, origin, calls);
    UptoIsJustified(p, origin, log, t);
    var l := Upto(log, t);
    if l == [] {
      MostNotNegative(p);
    } else {
      WindowHolds(p, origin, l[|l| - 1].now);
      TrailingSplit(p, origin, l, t);
      TrailingBound(p, origin, l, t);
      if p.limit <= 0 {
        NothingFits(p, origin, l);
      }
      CeilingNotNegative(p);
      MostBounds(p, Trailing(p, l, t), Carried(p, origin, l, t), LastOffset(p, origin, log, t));
    }
  }

  lemma MostNotNegative(p: Params)
    requires p.eps >= 0.0
    ensures Most(p) >= 0
  {
    if p.limit >= 1 {
      CeilingNotNegative(p);
      if p.window >= 2 {
        RoomNotNegative(p);
      }
    }
  }

  lemma NothingFits(p: Params, origin: int, log: seq<Call>)
    requires p.limit <= 0 && p.eps >= 0.0 && log != [] && Justified(p, origin, log)
    ensures false
  {
    TestBounds(p, origin, log[..|log| - 1], log[|log| - 1]);
    ScaleBounds(-p.limit as real, 0.0, p.eps);
  }

  /** And some run reaches it: fill up at the last instant of a window, then take what room is left
      two instants before the next window ends. */
  lemma MostIsReached(p: Params, origin: int) returns (calls: seq<Call>, t: int)
    requires p.eps >= 0.0
    ensures Ordered(calls, origin)
    ensures Trailing(p, RunLog(p, origin, calls), t) == Most(p)
  {
    if p.limit <= 0 {
      calls, t := [], origin;
    } else {
      CeilingNotNegative(p);
      var full := Ceiling(p).Floor;
      var first, second := Call(full, origin + p.window - 1), Call(Room(p, full), origin + 2 * p.window - 2);
      FillsWindow(p, origin, full);
      if p.window == 1 || second.n <= 0 {
        calls, t := [first], first.now;
        OneCall(p, origin, first);
        if p.window >= 2 {
          RoomNotNegative(p);
        }
      } else {
        calls, t := [first, second], second.now;
        RoomIsLargest(p, full, second.n);
        FillsRoom(p, origin, full, second.n);
        TwoCalls(p, origin, first, second);
      }
    }
  }

  /** Without slack no trailing window ever holds twice the limit, and one less is the exact worst
      case as soon as the window has two instants for each unit of the limit. */
  lemma AtMostTwiceLessOne(p: Params, origin: int, calls: seq<Call>, t: int)
    requires p.limit >= 1 && p.eps == 0.0 && Ordered(calls, origin)
    ensures Trailing(p, RunLog(p, origin, calls), t) <= 2 * p.limit - 1
    ensures Most(p) == 2 * p.limit - 1 <==> p.limit == 1 || p.window >= 2 * p.limit
  {
    TrailingAtMost(p, origin, calls, t);
    CeilingNotNegative(p);
    MostWithoutSlack(p);
  }

  lemma MostWithoutSlack(p: Params)
    requires p.limit >= 1 && Ceiling(p) == p.limit as real
    ensures Most(p) <= 2 * p.limit - 1
    ensures Most(p) == 2 * p.limit - 1 <==> p.limit == 1 || p.window >= 2 * p.limit
  {
    var w, limit := p.window as real, p.limit as real;
    assert Ceiling(p).Floor == p.limit;
    RoomIsLargest(p, p.limit, p.limit);
    RoomIsLargest(p, p.limit, p.limit - 1);
    assert (p.limit - 1) as real * w == limit * w - w;
  }

  /** The documented contract: at most limit admitted units within any trailing window. */
  ghost predicate KeepsTrailingLimit(p: Params, origin: int) {
    forall calls, t | Ordered(calls, origin) ::
      Trailing(p, RunLog(p, origin, calls), t) <= if p.limit > 0 then p.limit else 0
  }

  /** The configurations that do keep it: a limit so small, or a window of so few instants, that
      the weighted remainder of a full window leaves no room for one more unit. */
  predicate LeavesNoRoom(p: Params) {
    var slack := AdmitEpsilon(p.limit as real, p.eps);
    p.limit <= 0 || (slack < 1.0 && Ceiling(p) * p.window as real < p.window as real + 2.0 * p.limit as real)
  }

  lemma TrailingLimitKept(p: Params, origin: int, calls: seq<Call>, t: int)
    requires p.eps >= 0.0 && Ordered(calls, origin) && LeavesNoRoom(p)
    ensures Trailing(p, RunLog(p, origin, calls), t) <= if p.limit > 0 then p.limit else 0
  {
    TrailingAtMost(p, origin, calls, t);
    if p.limit > 0 {
      CeilingNotNegative(p);
      assert Ceiling(p).Floor == p.limit;
      RoomIsLargest(p, p.limit, 1);
    }
  }

  /** A concrete run that breaks the contract by one unit, whenever there is room for one more. */
  lemma TrailingLimitBroken(p: Params, origin: int) returns (calls: seq<Call>, t: int)
    requires p.eps >= 0.0 && !LeavesNoRoom(p)
    ensures Ordered(calls, origin)
    ensures Trailing(p, RunLog(p, origin, calls), t) == p.limit + 1
  {
    if AdmitEpsilon(p.limit as real, p.eps) >= 1.0 {
      var only := Call(p.limit + 1, origin + p.window - 1);
      calls, t := [only], only.now;
      FillsWindow(p, origin, only.n);
      OneCall(p, origin, only);
    } else {
      var first, second := Call(p.limit, origin + p.window - 1), Call(1, origin + 2 * p.window - 2);
      calls, t := [first, second], second.now;
      CeilingNotNegative(p);
      ThreeInstants(p);
      FillsWindow(p, origin, p.limit);
      FillsRoom(p, origin, p.limit, 1);
      TwoCalls(p, origin, first, second);
    }
  }

  lemma FillsWindow(p: Params, origin: int, n: int)
    requires n >= 1 && Ceiling(p) >= n as real
    ensures Step(p, Fresh(origin), Call(n, origin + p.window - 1)) == Outcome(Counters(origin, 0, n), true)
  {
    assert Estimate(p, Fresh(origin), origin + p.window - 1) == 0.0;
  }

  lemma FillsRoom(p: Params, origin: int, full: int, n: int)
    requires full >= 1 && n >= 1 && p.window >= 2 && FitsAfter(p, full, n)
    ensures Step(p, Counters(origin, 0, full), Call(n, origin + 2 * p.window - 2)).ok
  {
    var now := origin + 2 * p.window - 2;
    var rolled := Counters(origin + p.window, full, 0);
    QuotientUnique(1, p.window - 2, p.window);
    assert now - origin == 1 * p.window + (p.window - 2);
    assert Roll(p, Counters(origin, 0, full), now) == rolled;
    OverlapBounds(p, p.window - 2, p.window - 2);
    RoomForMore(full as real, Overlap(p, p.window - 2), n as real, Ceiling(p), p.window as real);
  }

  lemma RoomForMore(full: real, overlap: real, n: real, ceiling: real, w: real)
    requires w > 0.0 && overlap * w == 2.0 && 2.0 * full + n * w <= ceiling * w
    ensures full * overlap + n <= ceiling
  {
    assert (full * overlap) * w == full * (overlap * w);
    assert (ceiling - (full * overlap + n)) * w == ceiling * w - (full * overlap) * w - n * w;
    SignOfProduct(ceiling - (full * overlap + n), w);
  }

  lemma LogCons(p: Params, s: Counters, log: seq<Call>, a: Call, rest: seq<Call>)
    requires a.n > 0 && Step(p, s, a).ok
    ensures Log(p, s, log, [a] + rest) == Log(p, Step(p, s, a).state, log + [a], rest)
  {
    assert ([a] + rest)[1..] == rest;
  }

  lemma OneCall(p: Params, origin: int, a: Call)
    requires origin <= a.now && a.n > 0 && Step(p, Fresh(origin), a).ok
    ensures Ordered([a], origin) && Trailing(p, RunLog(p, origin, [a]), a.now) == a.n
  {
    LogCons(p, Fresh(origin), [], a, []);
    assert [a] + [] == [a] && [a][1..] == [];
    UnitsInSnoc([], a, a.now - p.window + 1, a.now + 1);
  }

  lemma UnitsInSnoc(log: seq<Call>, e: Call, lo: int, hi: int)
    ensures UnitsIn(log + [e], lo, hi) == UnitsIn(log, lo, hi) + if lo <= e.now < hi then e.n else 0
  {
    assert (log + [e])[..|log|] == log;
  }

  lemma TwoCalls(p: Params, origin: int, a: Call, b: Call)
    requires origin <= a.now <= b.now && a.n > 0 && b.n > 0 && b.now - p.window < a.now
    requires Step(p, Fresh(origin), a).ok && Step(p, Step(p, Fresh(origin), a).state, b).ok
    ensures Ordered([a, b], origin) && Trailing(p, RunLog(p, origin, [a, b]), b.now) == a.n + b.n
  {
    var s := Step(p, Fresh(origin), a).state;
    LogCons(p, Fresh(origin), [], a, [b]);
    LogCons(p, s, [] + [a], b, []);
    assert [a] + [b] == [a, b] && [b] + [] == [b] && [a, b][1..] == [b] && [b][1..] == [];
    UnitsInSnoc([], a, b.now - p.window + 1, b.now + 1);
    UnitsInSnoc([a], b, b.now - p.window + 1, b.now + 1);
  }

  /** Room for one more without a whole unit of slack needs a window of at least three instants. */
  lemma ThreeInstants(p: Params)
    requires p.eps >= 0.0 && !LeavesNoRoom(p) && AdmitEpsilon(p.limit as real, p.eps) < 1.0
    ensures p.window >= 3
  {
    if p.window == 1 {
      assert Ceiling(p) * 1.0 == Ceiling(p);
    }
  }

  /** The documented contract holds on every run exactly in the configurations above. Of the
      examples, a limit of 2 per 4 instants breaks it; a limit of 1 cannot without slack, but with the
      code's slack it does over two seconds. */
  lemma TrailingLimitIff(p: Params, origin: int)
    requires p.eps >= 0.0
    ensures KeepsTrailingLimit(p, origin) <==> LeavesNoRoom(p)
    ensures p.limit == 2 && p.window == 4 && p.eps == ADMIT_EPSILON_REL ==> !KeepsTrailingLimit(p, origin)
    ensures p.limit == 1 && p.eps == 0.0 ==> KeepsTrailingLimit(p, origin)
    ensures p.limit == 1 && p.window == 2000000000 && p.eps == ADMIT_EPSILON_REL ==> !KeepsTrailingLimit(p, origin)
  {
    if LeavesNoRoom(p) {
      forall calls, t | Ordered(calls, origin)
        ensures Trailing(p, RunLog(p, origin, calls), t) <= if p.limit > 0 then p.limit else 0
      {
        TrailingLimitKept(p, origin, calls, t);
      }
    } else {
      var calls, t := TrailingLimitBroken(p, origin);
    }
  }
}
