/** cmd/bench/runner.go: what one worker tallies, and the fold of the workers' tallies into one
    result. The limiter, the stop flag and the clock are the scripts verdicts and latencies: what
    each call returned and how long it took; the run's duration and allocation count are arguments. */
module Runners {
  import opened LatencyHists
  import opened Limits
  import opened Runs

  datatype WorkerResult = WorkerResult(calls: nat, allowed: nat, hist: LatencyHist?)

  datatype Report = Report(calls: nat, allowed: nat, elapsed: Duration, allocs: nat, hist: LatencyHist?, workers: nat)

  /** One sample per latency, in order; a clock that failed to advance counts as zero. */
  predicate Records(samples: seq<Nanos>, latencies: seq<Duration>) {
    && |samples| == |latencies|
    && forall i :: 0 <= i < |samples| ==> samples[i] == if latencies[i] >= 0 then latencies[i] else 0
  }

  /** One goroutine's loop: every call counted once, every grant counted as allowed, and with
      percentiles on, every call's latency observed. */
  method Work(verdicts: seq<bool>, latencies: seq<Duration>, percentiles: bool) returns (w: WorkerResult)
    requires |latencies| == |verdicts|
    ensures w.calls == |verdicts| && w.allowed == CountTrue(verdicts)
    ensures percentiles <==> w.hist != null
    ensures w.hist != null ==> fresh(w.hist) && fresh(w.hist.buckets) && w.hist.Valid()
    ensures w.hist != null ==> Records(w.hist.samples, latencies)
  {
    var calls, allowed := 0, 0;
    if percentiles {
      var h := new LatencyHist();
      while calls < |verdicts|
        invariant calls <= |verdicts| && allowed == CountTrue(verdicts[..calls])
        invariant fresh(h) && fresh(h.buckets) && h.Valid() && Records(h.samples, latencies[..calls])
      {
        var ok := verdicts[calls];
        h.Observe(latencies[calls]);
        OneMoreVerdict(verdicts, calls);
        calls := calls + 1;
        if ok {
          allowed := allowed + 1;
        }
      }
      assert verdicts[..calls] == verdicts && latencies[..calls] == latencies;
      w := WorkerResult(calls, allowed, h);
    } else {
      while calls < |verdicts|
        invariant calls <= |verdicts| && allowed == CountTrue(verdicts[..calls])
      {
        OneMoreVerdict(verdicts, calls);
        if verdicts[calls] {
          allowed := allowed + 1;
        }
        calls := calls + 1;
      }
      assert verdicts[..calls] == verdicts;
      w := WorkerResult(calls, allowed, null);
    }
  }

  lemma OneMoreVerdict(verdicts: seq<bool>, i: nat)
    requires i < |verdicts|
    ensures CountTrue(verdicts[..i + 1]) == CountTrue(verdicts[..i]) + (if verdicts[i] then 1 else 0)
  {
    assert verdicts[..i + 1] == verdicts[..i] + [verdicts[i]];
    CountTrueSnoc(verdicts[..i], verdicts[i]);
  }

  function TotalCalls(workers: seq<WorkerResult>): nat {
    if workers == [] then 0 else TotalCalls(workers[..|workers| - 1]) + workers[|workers| - 1].calls
  }

  function TotalAllowed(workers: seq<WorkerResult>): nat {
    if workers == [] then 0 else TotalAllowed(workers[..|workers| - 1]) + workers[|workers| - 1].allowed
  }

  /** Lists one after another. */
  function Joined<T>(lists: seq<seq<T>>): seq<T> {
    if lists == [] then [] else Joined(lists[..|lists| - 1]) + lists[|lists| - 1]
  }

  /** The samples of each worker, none for one that kept no histogram. */
  ghost function SamplesOf(workers: seq<WorkerResult>): seq<seq<Nanos>>
    reads set w | w in workers && w.hist != null :: w.hist
  {
    seq(|workers|, i requires 0 <= i < |workers|
                     reads set w | w in workers && w.hist != null :: w.hist =>
                     if workers[i].hist == null then [] else workers[i].hist.samples)
  }

  ghost function AllSamples(workers: seq<WorkerResult>): seq<Nanos>
    reads set w | w in workers && w.hist != null :: w.hist
  {
    Joined(SamplesOf(workers))
  }

  lemma OneMoreWorker(workers: seq<WorkerResult>, i: nat)
    requires i < |workers|
    ensures TotalCalls(workers[..i + 1]) == TotalCalls(workers[..i]) + workers[i].calls
    ensures TotalAllowed(workers[..i + 1]) == TotalAllowed(workers[..i]) + workers[i].allowed
  {
    assert workers[..i + 1][..i] == workers[..i];
  }

  lemma OneMoreList<T>(lists: seq<seq<T>>, i: nat)
    requires i < |lists|
    ensures Joined(lists[..i + 1]) == Joined(lists[..i]) + lists[i]
  {
    assert lists[..i + 1][..i] == lists[..i];
  }

  /** Merging into a histogram that the first worker to keep one brings into being. */
  method MergeInto(hist: LatencyHist?, o: LatencyHist) returns (r: LatencyHist)
    requires o.Valid() && (hist != null ==> hist.Valid() && hist != o && hist.buckets != o.buckets)
    modifies if hist == null then {} else {hist, hist.buckets}
    ensures r.Valid() && r.samples == old(if hist == null then [] else hist.samples) + old(o.samples)
    ensures if hist == null then fresh(r) && fresh(r.buckets) else r == hist
  {
    if hist == null {
      r := new LatencyHist();
    } else {
      r := hist;
    }
    r.Merge(o);
  }

  /** The end of runOne: totals are the sums over the workers, and the one histogram stands for all
      the workers' samples, whichever of them kept one. */
  method Fold(workers: seq<WorkerResult>, elapsed: Duration, allocs: nat) returns (res: Report)
    requires forall w <- workers :: w.hist != null ==> w.hist.Valid()
    ensures res.calls == TotalCalls(workers) && res.allowed == TotalAllowed(workers)
    ensures res.workers == |workers| && res.elapsed == elapsed && res.allocs == allocs
    ensures res.hist == null <==> forall w <- workers :: w.hist == null
    ensures res.hist != null ==> fresh(res.hist) && res.hist.Valid() && res.hist.samples == AllSamples(workers)
  {
    var calls, allowed := 0, 0;
    var hist: LatencyHist? := null;
    ghost var samples := SamplesOf(workers);
    for i := 0 to |workers|
      invariant calls == TotalCalls(workers[..i]) && allowed == TotalAllowed(workers[..i])
      invariant hist == null <==> forall k :: 0 <= k < i ==> workers[k].hist == null
      invariant forall k :: 0 <= k < |workers| && workers[k].hist != null ==> workers[k].hist.samples == samples[k]
      invariant hist == null ==> Joined(samples[..i]) == []
      invariant hist != null ==>
                  fresh(hist) && fresh(hist.buckets) && hist.Valid() && hist.samples == Joined(samples[..i])
    {
      var w := workers[i];
      assert w in workers;
      OneMoreWorker(workers, i);
      OneMoreList(samples, i);
      calls := calls + w.calls;
      allowed := allowed + w.allowed;
      if w.hist != null {
        hist := MergeInto(hist, w.hist);
      }
    }
    assert workers[..|workers|] == workers && samples[..|samples|] == samples;
    assert SamplesOf(workers) == samples;
    res := Report(calls, allowed, elapsed, allocs, hist, |workers|);
  }

  /** The tallies are those of these verdicts and latencies, as Work promises of each worker. */
  ghost predicate Worked(workers: seq<WorkerResult>, verdicts: seq<seq<bool>>, latencies: seq<seq<Duration>>)
    reads set w | w in workers && w.hist != null :: w.hist
  {
    && |verdicts| == |latencies| == |workers|
    && forall i :: 0 <= i < |workers| ==>
         && workers[i].calls == |verdicts[i]| && workers[i].allowed == CountTrue(verdicts[i])
         && workers[i].hist != null && Records(workers[i].hist.samples, latencies[i])
  }

  /** The totals and the samples of all workers are those of one worker that did all their work. */
  lemma {:induction false} TotalsAreJoined(workers: seq<WorkerResult>, verdicts: seq<seq<bool>>,
                                           latencies: seq<seq<Duration>>)
    requires Worked(workers, verdicts, latencies)
    ensures TotalCalls(workers) == |Joined(verdicts)|
    ensures TotalAllowed(workers) == CountTrue(Joined(verdicts))
    ensures Records(AllSamples(workers), Joined(latencies))
    decreases |workers|
  {
    if workers != [] {
      var k := |workers| - 1;
      TotalsAreJoined(workers[..k], verdicts[..k], latencies[..k]);
      assert SamplesOf(workers)[..k] == SamplesOf(workers[..k]);
      CountTrueAppend(Joined(verdicts[..k]), verdicts[k]);
    }
  }

  lemma {:induction false} CountTrueAppend(a: seq<bool>, b: seq<bool>)
    ensures CountTrue(a + b) == CountTrue(a) + CountTrue(b)
    decreases |a|
  {
    if a == [] {
      assert a + b == b;
    } else {
      assert (a + b)[1..] == a[1..] + b;
      CountTrueAppend(a[1..], b);
    }
  }

  /** No worker allows more than it calls, so the denied column never wraps below zero. */
  lemma {:induction false} DeniedNeverWraps(workers: seq<WorkerResult>)
    requires forall w <- workers :: w.allowed <= w.calls
    ensures TotalAllowed(workers) <= TotalCalls(workers)
    decreases |workers|
  {
    if workers != [] {
      assert workers[|workers| - 1] in workers;
      assert forall w <- workers[..|workers| - 1] :: w in workers;
      DeniedNeverWraps(workers[..|workers| - 1]);
    }
  }

  /** The figures a row is rendered from: denials, calls per second, the mean cost and allocations of
      a call, and percentiles that come out in order. Every worker is busy for the whole run, so rate
      and cost are each other's inverse, per worker. */
  method Derive(r: Report)
    returns (denied: nat, throughput: real, avgNs: real, allocsPerOp: real, p50: int, p99: int, p999: int)
    requires r.allowed <= r.calls && (r.hist != null ==> r.hist.Valid())
    ensures denied + r.allowed == r.calls
    ensures r.elapsed > 0 ==> throughput * (r.elapsed as real / NANOS_PER_SECOND) == r.calls as real
    ensures r.elapsed <= 0 ==> throughput == 0.0
    ensures r.calls > 0 ==> avgNs * r.calls as real == r.elapsed as real * r.workers as real
    ensures r.calls > 0 ==> allocsPerOp * r.calls as real == r.allocs as real
    ensures r.calls == 0 ==> avgNs == allocsPerOp == 0.0
    ensures r.elapsed > 0 && r.calls > 0 ==> throughput * avgNs == r.workers as real * NANOS_PER_SECOND
    ensures p50 <= p99 <= p999
    ensures r.hist != null && r.hist.samples != [] ==>
              && Reports(r.hist.samples, 0.50, p50)
              && Reports(r.hist.samples, 0.99, p99)
              && Reports(r.hist.samples, 0.999, p999)
  {
    denied := r.calls - r.allowed;
    throughput, avgNs, allocsPerOp := 0.0, 0.0, 0.0;
    var secs := r.elapsed as real / NANOS_PER_SECOND;
    if secs > 0.0 {
      throughput := r.calls as real / secs;
    }
    if r.calls > 0 {
      avgNs := r.elapsed as real * r.workers as real / r.calls as real;
      allocsPerOp := r.allocs as real / r.calls as real;
    }
    if r.elapsed > 0 && r.calls > 0 {
      RateTimesCost(secs, r.calls as real, r.workers as real);
      assert r.elapsed as real == secs * NANOS_PER_SECOND;
    }
    p50, p99, p999 := 0, 0, 0;
    if r.hist != null {
      p50 := r.hist.Quantile(0.50);
      p99 := r.hist.Quantile(0.99);
      p999 := r.hist.Quantile(0.999);
      if r.hist.samples != [] {
        PercentilesInOrder(r.hist.samples, 0.50, 0.99, p50, p99);
        PercentilesInOrder(r.hist.samples, 0.99, 0.999, p99, p999);
      }
    }
  }

  lemma RateTimesCost(secs: real, calls: real, workers: real)
    requires secs > 0.0 && calls > 0.0
    ensures (calls / secs) * (secs * NANOS_PER_SECOND * workers / calls) == workers * NANOS_PER_SECOND
  {
    var rate, cost := calls / secs, secs * NANOS_PER_SECOND * workers / calls;
    assert cost * calls == secs * NANOS_PER_SECOND * workers;
    assert rate * secs == calls;
    assert rate * cost * secs == cost * calls;
    assert (rate * cost - workers * NANOS_PER_SECOND) * secs == 0.0;
  }

  /** A quantile's reported value, as Quantile promises it. */
  ghost predicate Reports(samples: seq<nat>, q: real, r: int) {
    forall v :: IsQuantile(samples, v, q) ==> r == BucketUpper(Len64(v)) && WithinTwo(v, r)
  }

  lemma PercentilesInOrder(samples: seq<nat>, q: real, q': real, r: int, r': int)
    requires samples != [] && 0.0 <= q <= q' <= 1.0 && Reports(samples, q, r) && Reports(samples, q', r')
    ensures r <= r'
  {
    var v := QuantileExists(samples, q);
    var v' := QuantileExists(samples, q');
    QuantileMonotone(samples, q, q', v, v');
  }
}
