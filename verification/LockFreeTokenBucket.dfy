/** lockfree_tokenbucket.go: the bucket whose state is a pointer to an immutable snapshot, replaced
    by compare-and-swap. A denial writes nothing. A call runs here against rivals, who after each of
    its loads make whatever calls the argument rivals says. */
module LockFreeTokenBuckets {
  import opened Limits
  import opened Runs
  import opened TokenBuckets

  /** nextLockFreeState: the refilled-and-spent next snapshot, if the batch is admitted. */
  function NextLockFreeState(p: Params, loaded: Level, now: int, n: int): Outcome<Level> {
    var tokens := Refill(p, loaded, now);
    if tokens + AdmitEpsilon(n as real, p.eps) >= n as real then Outcome(Level(tokens - n as real, now), true)
    else Outcome(loaded, false)
  }

  /** AllowN made alone. */
  function SoloStep(p: Params, s: Level, c: Call): Outcome<Level> {
    if c.n <= 0 then Outcome(s, true) else NextLockFreeState(p, s, c.now, c.n)
  }

  function SoloPolicy(p: Params): (Level, Call) -> Outcome<Level> {
    (s, c) => SoloStep(p, s, c)
  }

  lemma DeniedCallsInvisible(p: Params, s: Level, calls: seq<Call>)
    ensures var kept := GrantedBy(SoloPolicy(p), s, calls);
      && false !in Verdicts(SoloPolicy(p), s, kept)
      && Final(SoloPolicy(p), s, kept) == Final(SoloPolicy(p), s, calls)
  {
    DenialsWithoutWrites(SoloPolicy(p), s, calls);
  }

  /** Persisting the refill on a denial, as the mutex bucket does, is not observable: called alone
      at readings that do not decrease, the two buckets return the same verdicts. */
  lemma SameAsTokenBucket(p: Params, origin: int, calls: seq<Call>)
    requires Ordered(calls, origin)
    ensures Verdicts(Policy(p), Full(p, origin), calls) == Verdicts(SoloPolicy(p), Full(p, origin), calls)
    ensures SameCredit(p, Final(Policy(p), Full(p, origin), calls), Final(SoloPolicy(p), Full(p, origin), calls),
                       LastReading(calls, origin))
  {
    var f, g := Policy(p), SoloPolicy(p);
    var rel := (s, r, t) => SameCredit(p, s, r, t);
    forall s, r, t, c | rel(s, r, t) && Readable(t, c)
      ensures f(s, c).ok == g(r, c).ok && rel(f(s, c).state, g(r, c).state, After(t, c))
    {
      if c.n > 0 {
        RefillComposes(p, r, t, c.now);
        assert s == Level(Refill(p, r, t), t);
      }
    }
    SameVerdicts(f, g, rel, Full(p, origin), Full(p, origin), origin, calls);
  }

  /** An immutable snapshot; the bucket points at one. */
  class Snapshot {
    const level: Level

    constructor (level: Level)
      ensures this.level == level
    {
      this.level := level;
    }
  }

  class LockFreeTokenBucket {
    var state: Snapshot
    const rate: real
    const capacity: real
    ghost const origin: int
    /** Every successful CAS so far, in order. */
    ghost var commits: seq<Call>

    function Config(): Params {
      Params(rate, capacity, ADMIT_EPSILON_REL)
    }

    /** The level the given commits leave behind. */
    ghost function LevelAfter(calls: seq<Call>): Level {
      Final(SoloPolicy(Config()), Full(Config(), origin), calls)
    }

    ghost predicate Valid()
      reads this
    {
      && state.level == LevelAfter(commits)
      && false !in Verdicts(SoloPolicy(Config()), Full(Config(), origin), commits)
    }

    constructor (rate: real, capacity: int, now: int)
      ensures Valid() && Config() == Params(rate, capacity as real, ADMIT_EPSILON_REL)
      ensures commits == [] && state.level == Full(Config(), now)
    {
      this.rate := rate;
      this.capacity := capacity as real;
      this.origin := now;
      this.commits := [];
      this.state := new Snapshot(Level(capacity as real, now));
    }

    /** The atomic instruction: it compares pointers, not snapshots. */
    method CompareAndSwap(expected: Snapshot, next: Snapshot, ghost call: Call) returns (swapped: bool)
      requires Valid() && SoloStep(Config(), expected.level, call) == Outcome(next.level, true)
      modifies this
      ensures Valid() && swapped == (old(state) == expected)
      ensures swapped ==> commits == old(commits) + [call] && state == next
      ensures !swapped ==> commits == old(commits) && state == old(state)
    {
      swapped := state == expected;
      if swapped {
        RunSnoc(SoloPolicy(Config()), Full(Config(), origin), commits, call);
        commits := commits + [call];
        state := next;
      }
    }

    /** The commit was made by some rival. */
    ghost predicate FromRivals(made: Call, rivals: seq<seq<Call>>) {
      exists i :: 0 <= i < |rivals| && made in rivals[i]
    }

    /** Rival calls, each made atomically at its own reading. A commit publishes a new snapshot, so
        the pointer is the old one exactly when there was none. */
    method Interfere(calls: seq<Call>)
      requires Valid()
      modifies this
      ensures Valid() && old(commits) <= commits
      ensures forall k :: |old(commits)| <= k < |commits| ==> commits[k] in calls
      ensures if commits == old(commits) then state == old(state) else fresh(state)
    {
      for i := 0 to |calls|
        invariant Valid() && old(commits) <= commits
        invariant forall k :: |old(commits)| <= k < |commits| ==> commits[k] in calls
        invariant if commits == old(commits) then state == old(state) else fresh(state)
      {
        var next := NextLockFreeState(Config(), state.level, calls[i].now, calls[i].n);
        if calls[i].n > 0 && next.ok {
          var snapshot := new Snapshot(next.state);
          var swapped := CompareAndSwap(state, snapshot, calls[i]);
        }
      }
    }

    method Allow(clock: nat -> int, rivals: seq<seq<Call>>) returns (ok: bool, lost: nat)
      requires Valid()
      modifies this
      ensures Valid() && old(commits) <= commits
      ensures ok ==> commits != old(commits) && commits[|commits| - 1] == Call(1, clock(lost))
      ensures !ok ==> exists k :: |old(commits)| <= k <= |commits|
                        && !SoloStep(Config(), LevelAfter(commits[..k]), Call(1, clock(lost))).ok
      ensures forall k :: |old(commits)| <= k < |commits| - (if ok then 1 else 0) ==> FromRivals(commits[k], rivals)
      ensures lost <= |rivals| && |commits| >= |old(commits)| + lost + if ok then 1 else 0
    {
      ok, lost := AllowN(1, clock, rivals);
    }

    /** AllowN against finitely many rounds of rivals. A grant is one commit of this call, at the
        reading of its last iteration, on the snapshot everything before it published; all other
        commits made meanwhile are rivals' calls, at least one for each lost CAS. A denial commits
        nothing and was decided on a snapshot that was current at some moment of the call. */
    method AllowN(n: int, clock: nat -> int, rivals: seq<seq<Call>>) returns (ok: bool, lost: nat)
      requires Valid()
      modifies this
      ensures Valid() && old(commits) <= commits
      ensures n <= 0 ==> ok && commits == old(commits) && state == old(state)
      ensures ok && n > 0 ==> commits != old(commits) && commits[|commits| - 1] == Call(n, clock(lost))
      ensures !ok ==> exists k :: |old(commits)| <= k <= |commits|
                        && !SoloStep(Config(), LevelAfter(commits[..k]), Call(n, clock(lost))).ok
      ensures forall k :: |old(commits)| <= k < |commits| - (if ok && n > 0 then 1 else 0) ==>
                            FromRivals(commits[k], rivals)
      ensures lost <= |rivals| && |commits| >= |old(commits)| + lost + if ok && n > 0 then 1 else 0
    {
      lost := 0;
      if n <= 0 {
        return true, 0;
      }
      while true
        invariant Valid() && old(commits) <= commits
        invariant forall k :: |old(commits)| <= k < |commits| ==> FromRivals(commits[k], rivals)
        invariant lost <= |rivals| && |commits| >= |old(commits)| + lost
        decreases |rivals| - lost
      {
        var loaded := state;
        ghost var seen := commits;
        if lost < |rivals| {
          Interfere(rivals[lost]);
        }
        var now := clock(lost);
        var next := NextLockFreeState(Config(), loaded.level, now, n);
        if !next.ok {
          assert commits[..|seen|] == seen;
          return false, lost;
        }
        var snapshot := new Snapshot(next.state);
        var swapped := CompareAndSwap(loaded, snapshot, Call(n, now));
        if swapped {
          return true, lost;
        }
        lost := lost + 1;
      }
    }
  }
}
