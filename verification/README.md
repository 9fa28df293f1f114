# Verified model of ratelimit-lab

This project models the five in-process rate limiters of `internal/limiter` (token bucket, leaky
bucket, sliding window, and the two compare-and-swap token buckets) together with the latency
histogram, the parameter guard and the tally fold of `cmd/bench`, and proves what they promise.

`dafny verify dfyconfig.toml` checks the whole project.

## How it is laid out

| file | what it models |
|---|---|
| `Limits.dfy` | the relative admission slack and accrual over elapsed time (limiter.go) |
| `Runs.dfy` | runs of any limiter: verdicts, granted calls, simulation, deletion of denials |
| `TokenBucket.dfy`, `LeakyBucket.dfy`, `SlidingWindow.dfy` | the three mutex limiters, as classes and as step functions |
| `SlidingWindowBound.dfy` | the worst case of the sliding-window estimate |
| `AtomicState.dfy` | the arithmetic of the one-word bucket, in int64 and exactly; one call after another |
| `AtomicRefinement.dfy` | the one-word bucket as a refinement of the token counter |
| `AtomicTokenBucket.dfy`, `AtomicThreads.dfy` | its CAS loop: one call against arbitrary rivals, and any number of goroutines |
| `LockFreeTokenBucket.dfy`, `LockFreeThreads.dfy` | the snapshot bucket's CAS loop, in the same two ways |
| `Progress.dfy` | the counting argument for lost CASes |
| `LatencyHist.dfy`, `Runner.dfy`, `ParseConfig.dfy` | the harness: histogram, tallies, guard |

Conventions. A clock reading is an integer count of nanoseconds and is an argument of the call that
makes it; the theorems assume that readings do not decrease only where they say `Ordered`. A
`float64` is an exact real. The admission slack is a parameter `eps`; the classes fix it to the
code's 1e-9. A call is all-or-nothing, and `n <= 0` returns true without touching anything. Each class
method is proved equal to a step function, and the theorems are about runs of that function; for each
limiter `VerdictsAreExact` says what the verdicts of a run are without any of its state. The two
concurrent machines take one action of one goroutine at a time, in any order; an action that is not
possible is a no-op, so a theorem about `Exec(..., actions)` for all `actions` is about every
interleaving.

## Where the documentation and the code disagree

- `slidingwindow.go:8-11` promises at most `limit` requests in any trailing window. The code admits
  more: `TrailingLimitBroken` gives a run with `limit + 1`, and `TrailingLimitIff` proves exactly which
  configurations keep the promise. `TrailingAtMost` and `MostIsReached` give the exact worst case of
  every configuration.
- `atomic_tokenbucket.go:190-194` says a call linearizes at its own reading.
  `LinearizesAtReadingsIff` proves that this holds of every interleaving exactly when there is at most
  one goroutine or no capacity. Otherwise a call can be overtaken: one reads the clock, another reads
  it a full bucket later and spends everything first, and the early call is denied what it would have
  been granted in the order of the readings. `EveryInterleavingIsSerial` proves the order that does
  work, that of the CASes and deciding loads, and `OrderedReadingsRefineTokens` that a run whose
  readings do come in that order answers as the token bucket.
- `atomic_tokenbucket.go:219-221` says that admission counts stay within the relative error
  rate/2e9 of the period. A period that is rounded down far enough enforces a rate further off than
  that: at a rate of 6.7e8 the period is 1 ns, and the rate 1e9. `RateCalibrationIff` proves exactly
  how far the period may be rounded down, and the bound that always holds, rate/(2e9 - rate).
- `limiter.go:24-28` calls the slack too small for an observer to notice. On the filling side
  `LeakyBuckets.BurstWithinCapacityIff` shows that a leaky bucket admits a whole unit too many exactly when
  capacity * eps reaches 1, and on the spending side `TokenBuckets.BurstWithinCapacityIff` shows the
  same exactly when (capacity + 1) * eps does: with 1e-9, from a capacity of 10^9 and 10^9 - 1 on.
- `report.go:80-82` clamps the bucket index at 63. `Len64Fits` shows that no duration reaches the clamp.

## Model

| member | source | states |
|---|---|---|
| Runs.SameVerdicts | internal/limiter/limiter.go:85-95 | Two limiters related step by step return the same verdicts on every run with a non-decreasing clock |
| Runs.DenialsInvisible | internal/limiter/lockfree_tokenbucket.go:84-95 | If a limiter absorbs denials, deleting every denied call from an ordered run leaves every remaining call granted and the final states related |
| Runs.OnlyVerdictsObey | internal/limiter/limiter.go:85-95 | If a limiter decides by a rule after every prefix of a run, its verdicts are the only ones that obey the rule |
| TokenBuckets.TokenBucket.constructor | internal/limiter/tokenbucket.go:40-48 | The bucket starts full at the constructor's reading |
| TokenBuckets.TokenBucket.AllowN | internal/limiter/tokenbucket.go:62-80 | The new state and verdict are those of the specification step that all the theorems below are about |
| TokenBuckets.TokenBucket.Allow | internal/limiter/tokenbucket.go:51 | Allow is a batch of one |
| TokenBuckets.RefillComposes | internal/limiter/lockfree_tokenbucket.go:87-89 | Refilling at an intermediate time and again later gives the level of one refill over the whole span, at any rate (at a negative one from any level within the capacity) |
| TokenBuckets.DeniedCallsInvisible | internal/limiter/tokenbucket.go:70-79 | Deleting all denied calls of an ordered run changes no other verdict and no later credit, at any rate |
| TokenBuckets.GrantedPlusLeft | internal/limiter/tokenbucket.go:70-79 | Over any stretch of any run, units granted plus the level left are at most the starting level plus what accrued |
| TokenBuckets.DebtBounded | internal/limiter/limiter.go:24-28 | The level never falls below minus eps times the largest batch granted so far, over any run |
| TokenBuckets.LifetimeBound | internal/limiter/limiter.go:24-28 | At any rate and capacity, total units granted are at most capacity + max(0, rate * elapsed) + eps * (largest granted batch), or 0: the debt is per lifetime, not per call |
| TokenBuckets.OversizedBatchIff | internal/limiter/limiter.go:43-58 | A full bucket admits a batch larger than its capacity if and only if (capacity + 1) * eps >= 1 |
| TokenBuckets.BurstWithinCapacityIff | internal/limiter/limiter.go:24-58 | No burst of any batches from full is granted more than the capacity if and only if (capacity + 1) * eps < 1 |
| TokenBuckets.FrozenClock | internal/limiter/tokenbucket.go:72-79 | With the clock stopped, Allow grants exactly min(calls, whole tokens present) |
| TokenBuckets.VerdictsAreExact | internal/limiter/tokenbucket.go:62-80 | At any rate, slack and readings, a run has exactly these verdicts: n > 0 is granted if and only if n * (1 - eps) <= capacity, and the units granted since the origin, and since each earlier call, plus n * (1 - eps) are at most capacity + rate * seconds since then |
| LeakyBuckets.LeakyBucket.constructor | internal/limiter/leakybucket.go:55-62 | The bucket starts empty at the constructor's reading |
| LeakyBuckets.LeakyBucket.AllowN | internal/limiter/leakybucket.go:79-101 | The new state and verdict are those of the specification step, including no leak for a non-positive product |
| LeakyBuckets.DrainComposes | internal/limiter/leakybucket.go:87-94 | Draining in two stages is draining once, at any rate |
| LeakyBuckets.DeniedCallsInvisible | internal/limiter/leakybucket.go:87-100 | Deleting all denied calls of an ordered run changes no other verdict and no later level, at any rate |
| LeakyBuckets.PouredIsHeldOrDrained | internal/limiter/leakybucket.go:87-100 | Over any stretch of a run at any rate, units poured are still in the bucket or have drained, nothing else is in it, and the level stays between 0 and capacity plus slack |
| LeakyBuckets.LifetimeBound | internal/limiter/limiter.go:24-28 | At any rate and capacity, total units admitted are at most max(0, capacity * (1 + eps)) + max(0, rate * elapsed) |
| LeakyBuckets.FixedBudget | internal/limiter/leakybucket.go:44-46 | At rate <= 0, on every ordered run, the level is all that was ever admitted, never more than capacity plus slack, and a batch is admitted exactly while that total leaves room for it |
| LeakyBuckets.BurstWithinCapacityIff | internal/limiter/limiter.go:24-46 | No burst from empty exceeds the capacity, at any rate, if and only if capacity * eps < 1 |
| LeakyBuckets.TokenAndLeakyAreDual | internal/limiter/leakybucket.go:17-19 | With no slack and rate >= 0, token and leaky bucket return the same verdicts on every run, with level = capacity - tokens throughout |
| LeakyBuckets.VerdictsAreExact | internal/limiter/leakybucket.go:79-101 | At any rate and slack, an ordered run has exactly these verdicts: n > 0 is admitted if and only if n <= capacity * (1 + eps), and the units admitted since the origin, and since each earlier call, plus n are at most capacity * (1 + eps) + max(0, rate) * seconds since then |
| SlidingWindows.SlidingWindow.constructor | internal/limiter/slidingwindow.go:52-62 | Both counters start at zero in a window starting at the constructor's reading |
| SlidingWindows.SlidingWindow.AllowN | internal/limiter/slidingwindow.go:71-107 | The new counters and verdict are those of the specification step |
| SlidingWindows.RollFinds | internal/limiter/slidingwindow.go:85-95 | The rollover lands on the fixed window holding the reading, a whole number of windows on |
| SlidingWindows.RollComposes | internal/limiter/slidingwindow.go:85-95 | Rolling at an intermediate time and again later gives the counters of one roll, however many windows are crossed |
| SlidingWindows.RollKeepsCounters | internal/limiter/slidingwindow.go:82-95 | Rolling the counters of a log of admissions gives that log's counters at the later time |
| SlidingWindows.CountersAgreeWithLog | internal/limiter/slidingwindow.go:32-34 | Every run keeps the counters equal to the log's units in the current and previous fixed window, and logs only batches that pass the test on the log |
| SlidingWindows.LogIsGranted | internal/limiter/slidingwindow.go:102-106 | The log is exactly the granted batches, in order |
| SlidingWindows.CountersOnEveryRun | internal/limiter/slidingwindow.go:85-104 | After every run: windowStart is the origin plus whole windows, 0 <= elapsed < window, and both counters equal the granted units of their windows |
| SlidingWindows.DeniedCallsInvisible | internal/limiter/slidingwindow.go:85-106 | Deleting all denied calls of an ordered run changes no other verdict and no later counter |
| SlidingWindows.EstimateNeverRises | internal/limiter/slidingwindow.go:97-102 | With nothing admitted, the estimate never rises with time across any number of rollovers, so an admissible batch stays admissible |
| SlidingWindows.VerdictsAreExact | internal/limiter/slidingwindow.go:82-107 | For any limit and slack, an ordered run has exactly these verdicts: n > 0 is admitted if and only if (units granted in the previous fixed window) * (window - elapsed) + (units in the current one + n) * window <= limit * (1 + eps) * window |
| SlidingWindowBounds.FixedWindowBound | internal/limiter/slidingwindow.go:100-104 | No fixed window ever admits more than limit plus slack |
| SlidingWindowBounds.WorstCase | internal/limiter/slidingwindow.go:79-105 | At every instant of every run, the trailing window holds at most ceiling * (1 + e / window) units, e < window being the last admission's offset |
| SlidingWindowBounds.TrailingAtMost | internal/limiter/slidingwindow.go:79-105 | At every instant of every run, in every configuration, the trailing window holds at most `Most`: the whole units F under the ceiling, plus floor(ceiling - 2F/window) |
| SlidingWindowBounds.MostIsReached | internal/limiter/slidingwindow.go:79-105 | Some ordered run puts exactly that many units in one trailing window |
| SlidingWindowBounds.AtMostTwiceLessOne | internal/limiter/slidingwindow.go:79-105 | Without slack, no trailing window ever holds more than 2 * limit - 1 units, and that is the exact worst case if and only if limit = 1 or window >= 2 * limit |
| SlidingWindowBounds.TrailingLimitBroken | internal/limiter/slidingwindow.go:8-11 | Whenever there is room for one more unit, a concrete ordered run puts limit + 1 units in one trailing window |
| SlidingWindowBounds.TrailingLimitKept | internal/limiter/slidingwindow.go:8-11 | In every other configuration no trailing window of any run exceeds the limit |
| SlidingWindowBounds.TrailingLimitIff | internal/limiter/slidingwindow.go:8-11 | The documented trailing-window limit holds on every run if and only if limit <= 0, or limit * eps < 1 and (limit + slack) * window < window + 2 * limit |
| AtomicStates.ConfigureIsExact | internal/limiter/atomic_tokenbucket.go:125-164 | The constructor accepts exactly the positive rates and capacities whose period and span are representable, and the stored product did not overflow; each of its four panics is given its exact condition, such as a rate above 2e9 per second for the resolution |
| AtomicStates.SpanFits | internal/limiter/atomic_tokenbucket.go:145 | The divided guard holds exactly when the product exceeds the bound |
| AtomicStates.PeriodCalibration | internal/limiter/atomic_tokenbucket.go:101-134 | The stored period is 1e9/rate rounded to the nearest whole nanosecond, half way upwards, a relative error of at most rate/2e9 |
| AtomicStates.RateCalibrationIff | internal/limiter/atomic_tokenbucket.go:219-221 | The enforced rate 1e9/T is within a relative rate/2e9 of the rate if and only if the period was rounded down by at most 1e9/(rate + 2e9), and always within rate/(2e9 - rate) |
| AtomicStates.NoOverflow | internal/limiter/atomic_tokenbucket.go:276-286 | From any word in range, at any int64 reading, no intermediate of the transition overflows, it equals the exact transition, and the installed word is in range |
| AtomicStates.CommitMoves | internal/limiter/atomic_tokenbucket.go:229-233 | A commit moves the word forward by its cost and at least one period, to no later than its reading and no earlier than a full bucket before it plus the batch |
| AtomicStates.NeverOverAdmits | internal/limiter/atomic_tokenbucket.go:234-296 | For any stretch i..j of commits, stale or out-of-order readings included, units * T <= capT + now_j - now_i |
| AtomicStates.WordsNeverRepeat | internal/limiter/atomic_tokenbucket.go:227-233 | Two points of the commit history have the same word only if they are the same point |
| AtomicStates.DeniedCallsInvisible | internal/limiter/atomic_tokenbucket.go:211-218 | Deleting all denied calls of any run, whatever its readings, changes no verdict and no word |
| AtomicStates.BatchIsRepeatedAllow | internal/limiter/atomic_tokenbucket.go:169-172 | At one reading a batch of n is granted exactly when n single calls all are, and then both leave the same word |
| AtomicStates.VerdictsAreExact | internal/limiter/atomic_tokenbucket.go:234-296 | Whatever the readings (negative ones count as 0), a run has exactly these verdicts: n > 0 is granted if and only if n <= capacity, and the units granted since the origin, and since each grant, plus n cost at most capacity * T + time since then |
| AtomicRefinements.StoringTimeRefinesTokens | internal/limiter/atomic_tokenbucket.go:27-45 | On every ordered run, at any capacity, the verdicts are those of a token bucket of rate 1/T without slack, whose level is min(capacity, (now - vt)/T) after every call |
| AtomicRefinements.FrozenClock | internal/limiter/atomic_tokenbucket.go:287-296 | With the clock stopped, Allow grants exactly min(calls, capacity) |
| AtomicTokenBuckets.AtomicTokenBucket.constructor | internal/limiter/atomic_tokenbucket.go:151-164 | An accepted configuration starts as a full bucket with no commits |
| AtomicTokenBuckets.AtomicTokenBucket.WordRises | internal/limiter/atomic_tokenbucket.go:229-233 | After more commits the word is at least a period further on; it is the same word only if there was no commit |
| AtomicTokenBuckets.AtomicTokenBucket.Attempt | internal/limiter/atomic_tokenbucket.go:249-259 | One iteration against any rivals: it denies as the serial step does on the loaded word, or commits alone on that word, or loses to rivals' commits with the word a period or more further on |
| AtomicTokenBuckets.AtomicTokenBucket.Loop | internal/limiter/atomic_tokenbucket.go:249-260 | The loop ends against any rivals after at most (reading - first word loaded)/T attempts, with one commit of its own or the serial denial of the word it leaves |
| AtomicTokenBuckets.AtomicTokenBucket.AllowN | internal/limiter/atomic_tokenbucket.go:234-260 | The whole call: degenerate and oversized batches touch nothing; a grant adds exactly one commit of its own after the rivals'; a denial none; every other commit is a rival's, before the first load or after it; attempts are bounded from the first word loaded |
| AtomicThreads.NothingOverflows | internal/limiter/atomic_tokenbucket.go:276-286 | In every reachable state the word is between -capT and the latest commit's reading, and no attempt on it or on a held word overflows int64 |
| AtomicThreads.EveryInterleavingIsSerial | internal/limiter/atomic_tokenbucket.go:249-259 | Every interleaving has the verdicts and final word of a serial run whose grants are the commits in CAS order (same goroutines, batches and readings), with each returned call in a place of its own within its execution |
| AtomicThreads.DenialsTakeEffectAtTheirLoad | internal/limiter/atomic_tokenbucket.go:248-254 | A denial has its place in that run at the load of the word that denies it: a load logs one exactly when the serial step on the current word denies the call |
| AtomicThreads.InterleavingsObeyTheRule | internal/limiter/atomic_tokenbucket.go:234-260 | In every interleaving, each call got the verdict that the rule of AtomicStates.VerdictsAreExact asks for, given the grants before it in CAS order |
| AtomicThreads.LinearizesAtReadingsIff | internal/limiter/atomic_tokenbucket.go:190-194 | Every interleaving over a clock that never runs back can be reordered by its own readings into a serial run with the same verdicts if and only if there is at most one goroutine or no capacity |
| AtomicThreads.RefinesTokensIff | internal/limiter/atomic_tokenbucket.go:190-207 | The same condition says exactly when every interleaving answers, in the order of its readings, as the token bucket |
| AtomicThreads.NoStretchOverAdmits | internal/limiter/atomic_tokenbucket.go:249-259 | The over-admission bound for every stretch of commits of every interleaving |
| AtomicThreads.CasDetectsEveryCommit | internal/limiter/atomic_tokenbucket.go:249-259 | A held word equals the current one exactly when nobody (and so no other goroutine) has committed since the load; the next step returns the denial placed at the load, or commits and returns if undisturbed, or retries with the same batch and reading |
| AtomicThreads.UncontendedCall | internal/limiter/atomic_tokenbucket.go:234-260 | From any reachable state, a call run without interference leaves the word and returns the verdict of the serial step for its own batch and reading |
| AtomicThreads.LostCasesArePaidFor | internal/limiter/atomic_tokenbucket.go:198-200 | With m goroutines, lost CASes are at most (m - 1) * commits in every interleaving |
| AtomicThreads.FrozenExactness | internal/limiter/atomic_tokenbucket.go:249-259 | With the clock stopped, exactly min(k, capacity) of k returned Allow calls were granted, in every interleaving |
| LockFreeTokenBuckets.SameAsTokenBucket | internal/limiter/lockfree_tokenbucket.go:84-95 | Not persisting the refill on denial is unobservable: same verdicts as the mutex bucket on every ordered run at any rate, and the same credit |
| LockFreeTokenBuckets.DeniedCallsInvisible | internal/limiter/lockfree_tokenbucket.go:127-129 | Deleting all denied calls changes no verdict and no snapshot |
| LockFreeTokenBuckets.LockFreeTokenBucket.constructor | internal/limiter/lockfree_tokenbucket.go:63-74 | The first snapshot is a full bucket at the constructor's reading |
| LockFreeTokenBuckets.LockFreeTokenBucket.Interfere | internal/limiter/lockfree_tokenbucket.go:34-36 | After rivals the pointer is the old one exactly when none of them committed, and every new commit is one of theirs |
| LockFreeTokenBuckets.LockFreeTokenBucket.AllowN | internal/limiter/lockfree_tokenbucket.go:114-135 | Against rivals, a grant is exactly one commit of its own, the last, at its last reading; a denial commits nothing and is that of a snapshot current during the call; every other commit is a rival's, at least one for each lost CAS |
| LockFreeThreads.StaleOverestimates | internal/limiter/lockfree_tokenbucket.go:97-105 | At any rate, a snapshot brought forward to an instant has at least the level of any later snapshot brought forward to it |
| LockFreeThreads.Linearizable | internal/limiter/lockfree_tokenbucket.go:97-135 | In every interleaving, at any rate, the returned calls in the order of their last readings are a legal run of the sequential token bucket: same readings, same verdicts |
| LockFreeThreads.ReturnsObeyTheRule | internal/limiter/lockfree_tokenbucket.go:119-154 | In every interleaving, each returned call got the verdict that the rule of TokenBuckets.VerdictsAreExact asks for, given the grants before it in the order of readings |
| LockFreeThreads.LinearOrderIsRealTime | internal/limiter/lockfree_tokenbucket.go:103-105 | That order has non-decreasing readings, contains every return filed, and puts a call before any that began after it returned |
| LockFreeThreads.GrantsAreBounded | internal/limiter/lockfree_tokenbucket.go:97-105 | The returned grants of every interleaving keep the sequential lifetime bound, at any rate and capacity |
| LockFreeThreads.ElapsedIsNeverNegative | internal/limiter/lockfree_tokenbucket.go:121-124 | In every interleaving, a goroutine that has read the clock holds a snapshot whose timestamp is no later than its reading |
| LockFreeThreads.CasDetectsEveryCommit | internal/limiter/lockfree_tokenbucket.go:34-36 | Even with freed addresses reused, a held pointer is the published one exactly when nobody committed since; the next step denies on the loaded snapshot, or publishes if undisturbed, or retries with the same batch; its return is filed at its own reading and overwrites none |
| LockFreeThreads.UncontendedCall | internal/limiter/lockfree_tokenbucket.go:119-135 | From any reachable state, after any time, a call run without interference publishes and returns what the solo step does at the clock's reading, even at the address of a snapshot that nothing refers to any more |
| LockFreeThreads.LostCasesArePaidFor | internal/limiter/lockfree_tokenbucket.go:107-110 | With m goroutines, lost CASes are at most (m - 1) * commits in every interleaving |
| LockFreeThreads.FrozenExactness | internal/limiter/lockfree_tokenbucket.go:119-154 | With the clock stopped at any instant, exactly min(k, capacity) of k returned Allow calls were granted, in every interleaving |
| LatencyHists.LatencyHist.Observe | cmd/bench/report.go:74-84 | Every counter keeps equal to the number of samples in its bucket, with the duration itself added as a sample, or 0 for a negative one |
| LatencyHists.LatencyHist.Merge | cmd/bench/report.go:88-95 | Merging nil, another histogram or the histogram itself gives the counters of all the samples together |
| LatencyHists.LatencyHist.Quantile | cmd/bench/report.go:108-133 | Empty gives 0; otherwise the result r is the top of the bucket of the q-quantile v, the least sample that a fraction q of all samples do not exceed: v <= r <= 2v - 1, and 0 for 0; the loop never reaches the fallback |
| LatencyHists.QuantileExists | cmd/bench/report.go:106-123 | Samples have a q-quantile, and only one |
| LatencyHists.QuantileIsRank | cmd/bench/report.go:117-123 | It is the sample whose rank is the target the loop looks for |
| LatencyHists.Len64Fits | cmd/bench/report.go:79-82 | No duration needs more than 63 bits, so the clamp never acts |
| LatencyHists.RankExists | cmd/bench/report.go:117-123 | Every target rank has exactly one sample |
| LatencyHists.RankIgnoresOrder | cmd/bench/report.go:86-95 | The nearest-rank sample depends on the samples as a multiset only |
| LatencyHists.QuantileMonotone | cmd/bench/report.go:106-107 | A quantile for a higher q is never reported lower |
| Runners.Work | cmd/bench/runner.go:63-85 | A worker's counts are the number of calls and of grants, and its histogram holds each call's latency, 0 for a negative one |
| Runners.Fold | cmd/bench/runner.go:105-121 | Totals are the workers' sums, duration and allocations are kept; the histogram is absent only if all are, and stands for all samples of all workers |
| Runners.TotalsAreJoined | cmd/bench/runner.go:111-119 | The totals of workers are the number of calls and of grants in all their verdicts together, and the samples are all their latencies together |
| Runners.DeniedNeverWraps | cmd/bench/report.go:149 | Allowed never exceeds calls after the fold |
| Runners.Derive | cmd/bench/report.go:148-163 | Denied plus allowed is calls; throughput times seconds is calls, mean cost times calls is the workers' time, allocations per call times calls is the allocations, each 0 when its divisor is not positive; throughput times cost is workers * 1e9; p50 <= p99 <= p999, each from a quantile right within a factor of two |
| ParseConfigs.GuardMatchesConstructor | cmd/bench/main.go:154-180 | With a representable period, the guard accepts exactly what the constructor accepts with capacity >= 1, and computes the interval it stores |
| ParseConfigs.RejectionsAreExact | cmd/bench/main.go:132-180 | Each diagnostic is given for exactly its own condition: rate <= 0, capacity < 1, rate above 2e9, or a span past the limit |

## Left out

- LockFreeTokenBuckets.LockFreeTokenBucket.AllowN: rivals come in finitely many rounds, because the loop is lock-free and not wait-free: endless rivals could starve it. LostCasesArePaidFor bounds the losses by their commits.
- LatencyHists.LatencyHist.Observe: counters are unbounded, so the wrap of a uint64 counter after 2^64 samples is not modelled.
- SlidingWindows.SlidingWindow.AllowN: the counters are integers, because the code only ever adds whole batches to them; their float64 rounding above 2^53 is not modelled.
- Floating point: rounding, NaN and infinities, in the limiters and in math.Ceil and math.Round; the documented low-bit divergence of the two float token buckets is outside the model.
- Rates whose rounded period does not fit int64, where Go leaves the conversion in parseConfig unspecified.
- time.Time, Duration saturation, and the choice between Since and Now: one integer reading, clamped at zero as elapsedNanos does.
- Mutexes and weak memory: a mutex method is one atomic step, and CAS is strong and sequentially consistent.
- Cache-line padding, field hoisting and allocation counts, which have no functional meaning.
- Flag parsing other than the atomic guard, limiter construction by name, timers, goroutine start-up, rendering, and taking the duration and memory statistics of a run (they are arguments).
