/** atomic_tokenbucket.go: the bucket itself, one int64 word updated by compare-and-swap. A call
    runs here against rivals: before its first load and between each load and its CAS, other callers
    make whatever calls the argument rivals says, each one atomically. Between a lost CAS and the
    reload after it there are none, which loses no generality: words never come back, so that CAS
    fails just the same with the commits made there moved ahead of it. */
module AtomicTokenBuckets {
  import opened Runs
  import opened AtomicStates

  /** How one iteration of the loop ends. */
  datatype Iteration = Refused | Swapped | Lost

  class AtomicTokenBucket {
    var vt: int
    const nanosPerToken: int
    const capT: int
    const capacity: int
    /** Every successful CAS so far, in order. */
    ghost var commits: seq<Commit>

    function Config(): Config {
      AtomicStates.Config.Config(nanosPerToken, capT, capacity)
    }

    ghost predicate Valid()
      reads this
    {
      && AtomicStates.Valid(Config())
      && Chain(Config(), commits)
      && vt == WordAfter(Config(), commits)
      && (forall m <- commits :: m.call.now <= INT64_MAX)
    }

    constructor (rate: real, capacity: int)
      requires IsInt64(capacity) && Configure(rate, capacity).Ok?
      ensures Valid() && Config() == Configure(rate, capacity).value
      ensures commits == [] && vt == -capT
    {
      ConfigureIsExact(rate, capacity);
      var config := Configure(rate, capacity).value;
      this.nanosPerToken := config.nanosPerToken;
      this.capT := config.capT;
      this.capacity := config.capacity;
      this.vt := -config.capT;
      this.commits := [];
    }

    /** The atomic instruction; on success the installed word is logged as the caller's commit. */
    method CompareAndSwap(expected: int, next: int, call: Call) returns (swapped: bool)
      requires Valid() && call.now <= INT64_MAX
      requires IsCommit(Config(), Commit(call, expected, next))
      modifies this
      ensures Valid() && swapped == (old(vt) == expected)
      ensures commits == if swapped then old(commits) + [Commit(call, expected, next)] else old(commits)
    {
      swapped := vt == expected;
      if swapped {
        ChainSnoc(Config(), commits, Commit(call, expected, next));
        commits := commits + [Commit(call, expected, next)];
        vt := next;
      }
    }

    /** The word only moves forward, by a period at least for each commit it has moved by. */
    lemma WordRises(before: seq<Commit>)
      requires Valid() && before <= commits
      ensures InRange(Config(), vt, INT64_MAX)
      ensures vt == WordAfter(Config(), before) <==> commits == before
      ensures commits != before ==> vt >= WordAfter(Config(), before) + nanosPerToken
    {
      assert commits[..|commits|] == commits && commits[..|before|] == before;
      ChainInRange(Config(), commits, |commits|);
      StretchRises(Config(), commits, |before|, |commits|);
    }

    /** What int64 arithmetic makes of a call, on the current word. */
    lemma ExactNow(call: Call)
      requires Valid() && 1 <= call.n <= capacity && IsInt64(call.now)
      ensures var now, need := Elapsed(call.now), call.n * nanosPerToken;
        && Wrap64(need) == need && nanosPerToken <= need <= capT
        && NextAtomicState(vt, now, capT, need) == Advance(vt, now, capT, need)
        && (Advance(vt, now, capT, need).Granted? ==>
              IsCommit(Config(), Commit(Call(call.n, now), vt, Advance(vt, now, capT, need).next)))
    {
      WordRises(commits);
      NoOverflow(Config(), vt, INT64_MAX, call.now, call.n);
      CostBounds(Config(), call.n);
    }

    /** The commit was made by one of the given calls. */
    ghost predicate MadeBy(m: Commit, calls: seq<Call>) {
      exists x <- calls :: m.call == Call(x.n, Elapsed(x.now))
    }

    /** The commit was made by some rival after the first load of the word. */
    ghost predicate FromRivals(m: Commit, rivals: nat -> seq<Call>) {
      exists i: nat :: i > 0 && MadeBy(m, rivals(i))
    }

    /** Rival calls, each made atomically at its own reading; any commit raises the word by a period. */
    method Interfere(calls: seq<Call>)
      requires Valid() && forall x <- calls :: IsInt64(x.n) && IsInt64(x.now)
      modifies this
      ensures Valid() && old(commits) <= commits
      ensures forall k :: |old(commits)| <= k < |commits| ==> MadeBy(commits[k], calls)
      ensures vt >= if commits == old(commits) then old(vt) else old(vt) + nanosPerToken
    {
      for i := 0 to |calls|
        invariant Valid() && old(commits) <= commits
        invariant forall k :: |old(commits)| <= k < |commits| ==> MadeBy(commits[k], calls)
      {
        var x := calls[i];
        assert x in calls;
        if 1 <= x.n <= capacity {
          ExactNow(x);
          var now := Elapsed(x.now);
          var next := NextAtomicState(vt, now, capT, Wrap64(x.n * nanosPerToken));
          if next.Granted? {
            var swapped := CompareAndSwap(vt, next.next, Call(x.n, now));
          }
        }
      }
      WordRises(old(commits));
    }

    /** One iteration on the word just loaded: deny the batch, or let rivals come in between and try
        the CAS. It succeeds exactly when none of them committed; otherwise the word has risen by a
        period or more. The batch had a period or more of credit if it was not denied. */
    method Attempt(word: int, need: int, n: int, reading: int, calls: seq<Call>) returns (result: Iteration)
      requires Valid() && word == vt
      requires 1 <= n <= capacity && IsInt64(reading) && need == Wrap64(n * nanosPerToken)
      requires forall x <- calls :: IsInt64(x.n) && IsInt64(x.now)
      modifies this
      ensures Valid()
      ensures result.Refused? ==>
                commits == old(commits) && vt == word && Step(Config(), vt, Call(n, reading)) == Outcome(vt, false)
      ensures result.Swapped? ==> commits == old(commits) + [Commit(Call(n, Elapsed(reading)), word, vt)]
      ensures result.Lost? ==>
                && old(commits) < commits && vt >= word + nanosPerToken
                && (forall k :: |old(commits)| <= k < |commits| ==> MadeBy(commits[k], calls))
      ensures !result.Refused? ==> word + nanosPerToken <= Elapsed(reading)
    {
      var nowNs := Elapsed(reading);
      ExactNow(Call(n, reading));
      var next := NextAtomicState(word, nowNs, capT, need);
      if next.Denied? {
        return Refused;
      }
      Interfere(calls);
      var swapped := CompareAndSwap(word, next.next, Call(n, nowNs));
      return if swapped then Swapped else Lost;
    }

    method Allow(reading: int, rivals: nat -> seq<Call>) returns (ok: bool, tries: nat, ghost before: seq<Commit>)
      requires Valid() && IsInt64(reading)
      requires forall i: nat, x :: x in rivals(i) ==> IsInt64(x.n) && IsInt64(x.now)
      modifies this
      ensures Valid() && old(commits) <= before <= commits
      ensures ok ==> |commits| > |before| && commits[|commits| - 1].call == Call(1, Elapsed(reading))
      ensures !ok ==> Step(Config(), vt, Call(1, reading)) == Outcome(vt, false)
      ensures forall k :: |old(commits)| <= k < |before| ==> MadeBy(before[k], rivals(0))
      ensures forall k :: |before| <= k < |commits| - (if ok then 1 else 0) ==> FromRivals(commits[k], rivals)
      ensures WordAfter(Config(), before) >= old(vt)
      ensures tries > 0 ==> tries * nanosPerToken <= Elapsed(reading) - WordAfter(Config(), before)
    {
      ok, tries, before := AllowN(1, reading, rivals);
    }

    /** AllowN against any rivals; before is the history when it first loads the word. Whatever they
        do it returns, after at most (reading - that word) / T attempts: each lost CAS means the word
        rose by a period or more. A grant is one commit of this call on the word left by everything
        before it; a denial is the serial verdict on the word it leaves behind, which it has not
        touched. */
    method AllowN(n: int, reading: int, rivals: nat -> seq<Call>)
      returns (ok: bool, tries: nat, ghost before: seq<Commit>)
      requires Valid() && IsInt64(n) && IsInt64(reading)
      requires forall i: nat, x :: x in rivals(i) ==> IsInt64(x.n) && IsInt64(x.now)
      modifies this
      ensures Valid() && old(commits) <= before <= commits
      ensures n <= 0 || n > capacity ==> ok == (n <= 0) && tries == 0 && commits == old(commits) && vt == old(vt)
      ensures ok && n > 0 ==> |commits| > |before| && commits[|commits| - 1].call == Call(n, Elapsed(reading))
      ensures !ok ==> Step(Config(), vt, Call(n, reading)) == Outcome(vt, false)
      ensures forall k :: |old(commits)| <= k < |before| ==> MadeBy(before[k], rivals(0))
      ensures forall k :: |before| <= k < |commits| - (if ok && n > 0 then 1 else 0) ==> FromRivals(commits[k], rivals)
      ensures WordAfter(Config(), before) >= old(vt)
      ensures tries > 0 ==> tries * nanosPerToken <= Elapsed(reading) - WordAfter(Config(), before)
    {
      before := commits;
      if n <= 0 {
        return true, 0, before;
      }
      if n > capacity {
        return false, 0, before;
      }
      ok, tries, before := Loop(Wrap64(n * nanosPerToken), n, reading, rivals);
    }

    /** AllowN's loop, with the cost and the one clock reading in hand. */
    method Loop(need: int, n: int, reading: int, rivals: nat -> seq<Call>)
      returns (ok: bool, tries: nat, ghost before: seq<Commit>)
      requires Valid() && 1 <= n <= capacity && IsInt64(reading) && need == Wrap64(n * nanosPerToken)
      requires forall i: nat, x :: x in rivals(i) ==> IsInt64(x.n) && IsInt64(x.now)
      modifies this
      ensures Valid() && old(commits) <= before <= commits
      ensures ok ==> |commits| > |before| && commits[|commits| - 1].call == Call(n, Elapsed(reading))
      ensures !ok ==> Step(Config(), vt, Call(n, reading)) == Outcome(vt, false)
      ensures forall k :: |old(commits)| <= k < |before| ==> MadeBy(before[k], rivals(0))
      ensures forall k :: |before| <= k < |commits| - (if ok then 1 else 0) ==> FromRivals(commits[k], rivals)
      ensures WordAfter(Config(), before) >= old(vt)
      ensures tries > 0 ==> tries * nanosPerToken <= Elapsed(reading) - WordAfter(Config(), before)
    {
      Interfere(rivals(0));
      tries, before := 0, commits;
      var nowNs := Elapsed(reading);
      var word := vt;
      ghost var first := word;
      while true
        invariant Valid() && before <= commits && word == vt && first == WordAfter(Config(), before)
        invariant forall k :: |before| <= k < |commits| ==> FromRivals(commits[k], rivals)
        invariant word >= first + tries * nanosPerToken
        invariant tries > 0 ==> tries * nanosPerToken <= nowNs - first
        decreases nowNs - word
      {
        var result := Attempt(word, need, n, reading, rivals(tries + 1));
        if result.Refused? {
          return false, tries, before;
        }
        OneMore(tries, nanosPerToken);
        tries := tries + 1;
        if result.Swapped? {
          return true, tries, before;
        }
        word := vt;
      }
    }

    lemma OneMore(k: int, t: int)
      ensures (k + 1) * t == k * t + t
    {
    }
  }
}
