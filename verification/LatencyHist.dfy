/** The log2 latency histogram of cmd/bench/report.go. The ghost field samples is the list of values
    it stands for; every counter and every quantile is stated in terms of it. */
module LatencyHists {

  /** time.Duration: a signed 64-bit count of nanoseconds. */
  type Duration = d: int | -0x8000_0000_0000_0000 <= d <= 0x7FFF_FFFF_FFFF_FFFF

  /** A recorded sample: a duration that is not negative. */
  type Nanos = n: int | 0 <= n <= 0x7FFF_FFFF_FFFF_FFFF

  const BUCKETS: nat := 64

  function Pow2(i: nat): (p: nat)
    ensures p >= 1
  {
    if i == 0 then 1 else 2 * Pow2(i - 1)
  }

  /** bits.Len64: the number of bits needed to write x. */
  function Len64(x: nat): nat {
    if x == 0 then 0 else 1 + Len64(x / 2)
  }

  /** The inclusive upper bound of a bucket. */
  function BucketUpper(i: int): int {
    if i <= 0 then 0 else Pow2(i) - 1
  }

  /** How many samples fall in a bucket, and how many are at most x. */
  function InBucket(samples: seq<nat>, i: int): nat {
    if samples == [] then 0 else (if Len64(samples[0]) == i then 1 else 0) + InBucket(samples[1..], i)
  }

  function AtMost(samples: seq<nat>, x: int): nat {
    if samples == [] then 0 else (if samples[0] <= x then 1 else 0) + AtMost(samples[1..], x)
  }

  /** The rank quantile looks for: ceil(q * total), kept within 1..total. */
  function Target(q: real, total: nat): int {
    var ceil := CeilOf(q, total);
    var target := if ceil == 0 then 1 else ceil;
    if target > total then total else target
  }

  /** math.Ceil(q * total), over the exact reals. */
  function CeilOf(q: real, total: nat): int {
    -(-(q * total as real)).Floor
  }

  /** v is the target-th smallest sample. */
  predicate IsRank(samples: seq<nat>, v: nat, target: int) {
    v in samples && AtMost(samples, v - 1) < target <= AtMost(samples, v)
  }

  /** v is the least sample that at least so many samples do not exceed. */
  predicate IsLeastReaching(samples: seq<nat>, v: nat, count: real) {
    && v in samples
    && count <= AtMost(samples, v) as real
    && (AtMost(samples, v - 1) == 0 || AtMost(samples, v - 1) as real < count)
  }

  /** v is a q-quantile: the least sample that a fraction q of all samples do not exceed. */
  predicate IsQuantile(samples: seq<nat>, v: nat, q: real) {
    IsLeastReaching(samples, v, q * |samples| as real)
  }

  class LatencyHist {
    const buckets: array<nat>
    ghost var samples: seq<Nanos>

    ghost predicate Valid()
      reads this, buckets
    {
      && buckets.Length == BUCKETS
      && forall i :: 0 <= i < BUCKETS ==> buckets[i] == InBucket(samples, i)
    }

    constructor ()
      ensures Valid() && samples == [] && fresh(buckets)
    {
      buckets := new nat[BUCKETS](_ => 0);
      samples := [];
    }

    /** A clock that failed to advance counts as zero. */
    method Observe(d: Duration)
      requires Valid()
      modifies this, buckets
      ensures Valid()
      ensures d >= 0 ==> samples == old(samples) + [d]
      ensures d < 0 ==> samples == old(samples) + [0]
    {
      var ns: int := d;
      if ns < 0 {
        ns := 0;
      }
      var idx := Len64(ns);
      Len64Fits(ns);
      if idx > 63 {
        idx := 63;
      }
      forall i | 0 <= i < BUCKETS
        ensures InBucket(samples + [ns], i) == InBucket(samples, i) + if i == idx then 1 else 0
      {
        InBucketAppend(samples, [ns], i);
        assert [ns][1..] == [];
      }
      buckets[idx] := buckets[idx] + 1;
      samples := samples + [ns];
    }

    /** Folding another histogram in, nil or even itself, loses and invents no sample. */
    method Merge(o: LatencyHist?)
      requires Valid() && (o != null ==> o.Valid()) && (o != null && o != this ==> o.buckets != buckets)
      modifies this, buckets
      ensures Valid() && samples == old(samples) + if o == null then [] else old(o.samples)
    {
      if o == null {
        return;
      }
      ghost var mine, other := samples, o.samples;
      for i := 0 to buckets.Length
        invariant o.buckets.Length == BUCKETS
        invariant forall k :: 0 <= k < i ==> buckets[k] == InBucket(mine, k) + InBucket(other, k)
        invariant forall k :: i <= k < BUCKETS ==> buckets[k] == InBucket(mine, k) && o.buckets[k] == InBucket(other, k)
      {
        buckets[i] := buckets[i] + o.buckets[i];
      }
      samples := mine + other;
      forall i {
        InBucketAppend(mine, other, i);
      }
    }

    /** The reported r brackets the q-quantile v of the samples: r is the top of v's bucket, so
        v <= r <= 2v - 1, and r = 0 for v = 0. The second loop always returns: falling through to
        the last bucket's bound never happens. */
    method Quantile(q: real) returns (r: int)
      requires Valid() && 0.0 <= q <= 1.0
      ensures samples == [] ==> r == 0
      ensures forall v :: IsQuantile(samples, v, q) ==> r == BucketUpper(Len64(v)) && WithinTwo(v, r)
    {
      var total := 0;
      for i := 0 to buckets.Length
        invariant total == UpToBucket(samples, i - 1)
      {
        BucketAdds(samples, i);
        total := total + buckets[i];
      }
      AllInBuckets(samples);
      if total == 0 {
        return 0;
      }
      var target := CeilOf(q, total);
      TargetInRange(q, total);
      if target == 0 {
        target := 1;
      }
      if target > total {
        target := total;
      }
      var cum := 0;
      for i := 0 to buckets.Length
        invariant cum == UpToBucket(samples, i - 1) && cum < target
      {
        BucketAdds(samples, i);
        cum := cum + buckets[i];
        if cum >= target {
          assert target == Target(q, |samples|);
          BucketReports(samples, target, i);
          forall v | IsQuantile(samples, v, q)
            ensures IsRank(samples, v, target)
          {
            QuantileIsRank(samples, v, q);
          }
          return BucketUpper(i);
        }
      }
      r := 0;
      assert false;
    }
  }

  /** r stands for v up to a factor of two, and for 0 exactly. */
  predicate WithinTwo(v: nat, r: int) {
    v <= r && (if v == 0 then r == 0 else r <= 2 * v - 1)
  }

  /** Samples in buckets 0..i. */
  function UpToBucket(samples: seq<nat>, i: int): nat {
    if i < 0 then 0 else AtMost(samples, BucketUpper(i))
  }

  // ---------------------------------------------------------------- powers and bit lengths

  /** A bit length is at most i exactly for the values below 2^i. */
  lemma {:induction false} Len64AtMost(x: nat, i: nat)
    ensures Len64(x) <= i <==> x < Pow2(i)
    decreases x
  {
    if x > 0 && i > 0 {
      Len64AtMost(x / 2, i - 1);
    }
  }

  lemma Pow2Of63()
    ensures Pow2(63) == 0x8000_0000_0000_0000
  {
    assert Pow2(4) == 0x10 && Pow2(3) == 0x8;
    Pow2Adds(4, 4);
    Pow2Adds(8, 8);
    Pow2Adds(16, 16);
    Pow2Adds(32, 16);
    Pow2Adds(48, 8);
    Pow2Adds(56, 4);
    Pow2Adds(60, 3);
  }

  lemma {:induction false} Pow2Adds(a: nat, b: nat)
    ensures Pow2(a + b) == Pow2(a) * Pow2(b)
    decreases b
  {
    if b > 0 {
      Pow2Adds(a, b - 1);
      assert Pow2(a + b) == 2 * Pow2(a + (b - 1));
    }
  }

  /** No 64-bit duration needs the last-bucket clamp in observe. */
  lemma Len64Fits(x: nat)
    requires x <= 0x7FFF_FFFF_FFFF_FFFF
    ensures Len64(x) <= 63
  {
    Pow2Of63();
    Len64AtMost(x, 63);
  }

  /** The top of a sample's bucket is the sample up to a factor of two. */
  lemma TopOfBucket(v: nat)
    ensures WithinTwo(v, BucketUpper(Len64(v)))
  {
    var i := Len64(v);
    Len64AtMost(v, i);
    if i > 0 {
      Len64AtMost(v, i - 1);
    }
  }

  // ---------------------------------------------------------------- counting samples

  lemma {:induction false} InBucketAppend(a: seq<nat>, b: seq<nat>, i: int)
    ensures InBucket(a + b, i) == InBucket(a, i) + InBucket(b, i)
    decreases |a|
  {
    if a == [] {
      assert a + b == b;
    } else {
      assert (a + b)[1..] == a[1..] + b;
      InBucketAppend(a[1..], b, i);
    }
  }

  lemma {:induction false} AtMostMonotone(samples: seq<nat>, x: int, y: int)
    requires x <= y
    ensures AtMost(samples, x) <= AtMost(samples, y) <= |samples|
    decreases |samples|
  {
    if samples != [] {
      AtMostMonotone(samples[1..], x, y);
    }
  }

  /** Bucket i holds exactly the samples above the bucket before it and up to its own bound. */
  lemma {:induction false} BucketAdds(samples: seq<nat>, i: nat)
    ensures UpToBucket(samples, i) == UpToBucket(samples, i - 1) + InBucket(samples, i)
    decreases |samples|
  {
    if samples != [] {
      BucketAdds(samples[1..], i);
      Len64AtMost(samples[0], i);
      if i > 0 {
        Len64AtMost(samples[0], i - 1);
      }
    }
  }

  lemma {:induction false} AllInBuckets(samples: seq<Nanos>)
    ensures UpToBucket(samples, 63) == |samples|
    decreases |samples|
  {
    if samples != [] {
      Len64Fits(samples[0]);
      Len64AtMost(samples[0], 63);
      AllInBuckets(samples[1..]);
    }
  }

  /** The sample of rank target is in the first bucket at which the running count reaches it. */
  lemma RankFallsHere(samples: seq<nat>, v: nat, target: int, i: nat)
    requires IsRank(samples, v, target)
    requires UpToBucket(samples, i - 1) < target <= UpToBucket(samples, i)
    ensures Len64(v) == i
  {
    Len64AtMost(v, i);
    if v > BucketUpper(i) {
      AtMostMonotone(samples, BucketUpper(i), v - 1);
    }
    if i > 0 {
      Len64AtMost(v, i - 1);
      if v <= BucketUpper(i - 1) {
        AtMostMonotone(samples, v, BucketUpper(i - 1));
      }
    }
  }

  lemma BucketReports(samples: seq<nat>, target: int, i: nat)
    requires UpToBucket(samples, i - 1) < target <= UpToBucket(samples, i)
    ensures forall v :: IsRank(samples, v, target) ==>
              BucketUpper(i) == BucketUpper(Len64(v)) && WithinTwo(v, BucketUpper(i))
  {
    forall v | IsRank(samples, v, target)
      ensures BucketUpper(i) == BucketUpper(Len64(v)) && WithinTwo(v, BucketUpper(i))
    {
      RankFallsHere(samples, v, target, i);
      TopOfBucket(v);
    }
  }

  lemma TargetInRange(q: real, total: nat)
    requires 0.0 <= q <= 1.0 && total > 0
    ensures 0 <= CeilOf(q, total)
    ensures 1 <= Target(q, total) <= total
  {
    assert 0.0 <= q * total as real;
  }

  lemma ReachingIsRank(samples: seq<nat>, v: nat, count: real)
    requires samples != [] && 0.0 <= count <= |samples| as real
    ensures var ceil := -(-count).Floor;
      IsLeastReaching(samples, v, count) <==> IsRank(samples, v, if ceil == 0 then 1 else ceil)
  {
    if v in samples {
      PresentIsCounted(samples, v);
      AtMostMonotone(samples, v - 1, v);
      RoundsUp(count, |samples|, AtMost(samples, v - 1), AtMost(samples, v));
    }
  }

  /** The rank that the loop looks for is that of the quantile. */
  lemma QuantileIsRank(samples: seq<nat>, v: nat, q: real)
    requires samples != [] && 0.0 <= q <= 1.0
    ensures IsQuantile(samples, v, q) <==> IsRank(samples, v, Target(q, |samples|))
  {
    ShareInRange(q, |samples| as real);
    ReachingIsRank(samples, v, q * |samples| as real);
  }

  lemma ShareInRange(q: real, total: real)
    requires 0.0 <= q <= 1.0 && total >= 0.0
    ensures 0.0 <= q * total <= total
  {
    assert (1.0 - q) * total >= 0.0;
  }

  /** Rounding up to a whole rank, and to 1 at least, changes nothing for whole numbers of samples. */
  lemma RoundsUp(x: real, total: nat, below: nat, above: nat)
    requires 0.0 <= x <= total as real && below < above <= total
    ensures var ceil := -(-x).Floor;
      var target := if ceil == 0 then 1 else ceil;
      target <= total
      && (below < target <= above <==> x <= above as real && (below == 0 || (below as real) < x))
  {
  }

  lemma {:induction false} PresentIsCounted(samples: seq<nat>, v: nat)
    requires v in samples
    ensures AtMost(samples, v) > AtMost(samples, v - 1)
    decreases |samples|
  {
    AtMostMonotone(samples[1..], v - 1, v);
    if samples[0] != v {
      PresentIsCounted(samples[1..], v);
    }
  }

  /** Samples have a q-quantile, and only one. */
  lemma QuantileExists(samples: seq<nat>, q: real) returns (v: nat)
    requires samples != [] && 0.0 <= q <= 1.0
    ensures IsQuantile(samples, v, q)
    ensures forall w :: IsQuantile(samples, w, q) ==> w == v
  {
    TargetInRange(q, |samples|);
    v := RankExists(samples, Target(q, |samples|));
    forall w
      ensures IsQuantile(samples, w, q) <==> IsRank(samples, w, Target(q, |samples|))
    {
      QuantileIsRank(samples, w, q);
    }
  }

  /** Every rank has a sample, and only one. */
  lemma RankExists(samples: seq<nat>, target: int) returns (v: nat)
    requires 1 <= target <= |samples|
    ensures IsRank(samples, v, target)
    ensures forall w :: IsRank(samples, w, target) ==> w == v
  {
    var top := UpperBound(samples);
    v := 0;
    NoneBelowZero(samples);
    while AtMost(samples, v) < target
      invariant v <= top && AtMost(samples, v - 1) < target
      decreases top - v
    {
      v := v + 1;
    }
    CountedIsPresent(samples, v);
    forall w | IsRank(samples, w, target)
      ensures w == v
    {
      RanksAgree(samples, v, w, target);
    }
  }

  lemma RanksAgree(samples: seq<nat>, v: nat, w: nat, target: int)
    requires IsRank(samples, v, target) && IsRank(samples, w, target)
    ensures v == w
  {
    if v < w {
      AtMostMonotone(samples, v, w - 1);
    } else if w < v {
      AtMostMonotone(samples, w, v - 1);
    }
  }

  lemma {:induction false} NoneBelowZero(samples: seq<nat>)
    ensures AtMost(samples, -1) == 0
    decreases |samples|
  {
    if samples != [] {
      NoneBelowZero(samples[1..]);
    }
  }

  lemma {:induction false} UpperBound(samples: seq<nat>) returns (top: nat)
    ensures forall x :: x >= top ==> AtMost(samples, x) == |samples|
    decreases |samples|
  {
    top := 0;
    if samples != [] {
      top := UpperBound(samples[1..]);
      top := if samples[0] > top then samples[0] else top;
    }
  }

  lemma {:induction false} CountedIsPresent(samples: seq<nat>, v: nat)
    requires AtMost(samples, v - 1) < AtMost(samples, v)
    ensures v in samples
    decreases |samples|
  {
    if samples[0] != v {
      CountedIsPresent(samples[1..], v);
    }
  }

  /** The rank depends on the samples as a multiset only: it does not matter how they were split
      among workers or in which order the histograms were merged. */
  lemma RankIgnoresOrder(a: seq<nat>, b: seq<nat>, v: nat, target: int)
    requires multiset(a) == multiset(b)
    ensures IsRank(a, v, target) <==> IsRank(b, v, target)
  {
    AtMostIgnoresOrder(a, b, v);
    AtMostIgnoresOrder(a, b, v - 1);
    assert v in a <==> v in multiset(a);
    assert v in b <==> v in multiset(b);
  }

  lemma {:induction false} AtMostIgnoresOrder(a: seq<nat>, b: seq<nat>, x: int)
    requires multiset(a) == multiset(b)
    ensures AtMost(a, x) == AtMost(b, x)
    decreases |a|
  {
    if a == [] {
      assert |multiset(b)| == 0;
    } else {
      var i := Matching(a, b, x);
      AtMostIgnoresOrder(a[1..], b[..i] + b[i + 1..], x);
    }
  }

  /** The first sample of one list, found in another of the same samples. */
  lemma Matching(a: seq<nat>, b: seq<nat>, x: int) returns (i: nat)
    requires a != [] && multiset(a) == multiset(b)
    ensures i < |b| && b[i] == a[0] && multiset(a[1..]) == multiset(b[..i] + b[i + 1..])
    ensures AtMost(b, x) == AtMost(b[..i] + b[i + 1..], x) + if a[0] <= x then 1 else 0
  {
    assert a[0] in multiset(b);
    i :| i < |b| && b[i] == a[0];
    RemoveAt(b, i, x);
    assert a == [a[0]] + a[1..];
  }

  /** Taking one sample out. */
  lemma RemoveAt(a: seq<nat>, i: nat, x: int)
    requires i < |a|
    ensures multiset(a[..i] + a[i + 1..]) == multiset(a) - multiset{a[i]}
    ensures AtMost(a, x) == AtMost(a[..i] + a[i + 1..], x) + if a[i] <= x then 1 else 0
  {
    var tail := a[i..];
    assert a == a[..i] + tail && tail == [a[i]] + a[i + 1..];
    AtMostAppend(a[..i], tail, x);
    AtMostAppend(a[..i], a[i + 1..], x);
  }

  lemma {:induction false} AtMostAppend(a: seq<nat>, b: seq<nat>, x: int)
    ensures AtMost(a + b, x) == AtMost(a, x) + AtMost(b, x)
    decreases |a|
  {
    if a == [] {
      assert a + b == b;
    } else {
      assert (a + b)[1..] == a[1..] + b;
      AtMostAppend(a[1..], b, x);
    }
  }

  /** A higher quantile is never reported lower. */
  lemma QuantileMonotone(samples: seq<nat>, q: real, q': real, v: nat, v': nat)
    requires 0.0 <= q <= q' <= 1.0 && IsQuantile(samples, v, q) && IsQuantile(samples, v', q')
    ensures BucketUpper(Len64(v)) <= BucketUpper(Len64(v'))
  {
    QuantileIsRank(samples, v, q);
    QuantileIsRank(samples, v', q');
    TargetMonotone(q, q', |samples|);
    HigherRank(samples, v, v', Target(q, |samples|), Target(q', |samples|));
  }

  lemma HigherRank(samples: seq<nat>, v: nat, v': nat, target: int, target': int)
    requires IsRank(samples, v, target) && IsRank(samples, v', target') && target <= target'
    ensures v <= v' && BucketUpper(Len64(v)) <= BucketUpper(Len64(v'))
  {
    if v' < v {
      AtMostMonotone(samples, v', v - 1);
    }
    TopsMonotone(v, v');
  }

  lemma TopsMonotone(v: nat, v': nat)
    requires v <= v'
    ensures BucketUpper(Len64(v)) <= BucketUpper(Len64(v'))
  {
    var i, j := Len64(v), Len64(v');
    Len64AtMost(v', j);
    Len64AtMost(v, j);
    Pow2Monotone(i, j);
  }

  lemma TargetMonotone(q: real, q': real, total: nat)
    requires 0.0 <= q <= q' <= 1.0 && total > 0
    ensures Target(q, total) <= Target(q', total)
  {
    assert (q' - q) * total as real >= 0.0;
    assert q * total as real >= 0.0;
  }

  lemma {:induction false} Pow2Monotone(i: nat, j: nat)
    requires i <= j
    ensures Pow2(i) <= Pow2(j)
    decreases j
  {
    if i < j {
      Pow2Monotone(i, j - 1);
    }
  }
}
