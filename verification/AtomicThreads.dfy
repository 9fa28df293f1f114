/** Any number of goroutines calling AtomicTokenBucket.AllowN at once, as a machine whose steps are
    the atomic actions of the CAS loop: reading the clock on entry, loading the word, and the
    compare-and-swap. Every reading is the caller's own, so it may be stale or out of order. */
module AtomicThreads {
  import opened Runs
  import opened AtomicStates
  import opened Progress
  import AtomicRefinements
  import TB = TokenBuckets

  /** Where a goroutine is: outside, inside with its clock reading taken, or holding a loaded word.
      begun is the length of the log on entry; version and slot are bookkeeping for the proofs: how
      many commits the load saw, and where in the log a denial was placed. */
  datatype Thread =
    | Idle
    | Armed(call: Call, begun: nat)
    | Loaded(call: Call, begun: nat, word: int, version: nat, slot: nat)

  /** The serialisation: one entry per call at the point where it takes effect. */
  datatype Entry = Entry(tid: nat, call: Call, ok: bool)

  /** A call that has returned, and the stretch of the log its execution spans. */
  datatype Return = Return(entry: Entry, slot: nat, begun: nat, returned: nat)

  datatype State = State(vt: int, threads: seq<Thread>, log: seq<Entry>, commits: seq<Commit>,
                         committers: seq<nat>, finished: seq<Return>, lost: nat)

  datatype Action = Enter(tid: nat, n: int, reading: int) | Load(tid: nat) | Resolve(tid: nat)

  function Init(c: Config, m: nat): State {
    State(FullAt(c), seq(m, _ => Idle), [], [], [], [], 0)
  }

  /** The transition as a loop iteration computes it, in int64. */
  function Attempt(c: Config, word: int, call: Call): Transition {
    NextAtomicState(word, Elapsed(call.now), c.capT, Wrap64(call.n * c.nanosPerToken))
  }

  /** AllowN's first lines: degenerate and oversized batches return at once, any other call keeps
      its one clock reading and goes into the loop. */
  function DoEnter(c: Config, s: State, tid: nat, call: Call): State
    requires tid < |s.threads|
  {
    if call.n <= 0 || call.n > c.capacity then
      var e := Entry(tid, call, call.n <= 0);
      s.(log := s.log + [e], finished := s.finished + [Return(e, |s.log|, |s.log|, |s.log| + 1)])
    else s.(threads := s.threads[tid := Armed(call, |s.log|)])
  }

  /** Loading the word. If that word denies the batch, this is where the denial takes effect. */
  function DoLoad(c: Config, s: State, tid: nat): State
    requires tid < |s.threads| && s.threads[tid].Armed?
  {
    var t := s.threads[tid];
    s.(threads := s.threads[tid := Loaded(t.call, t.begun, s.vt, |s.commits|, |s.log|)],
       log := if Attempt(c, s.vt, t.call).Denied? then s.log + [Entry(tid, t.call, false)] else s.log)
  }

  /** Deciding on the loaded word: return false, or try to swap the new word in. */
  function DoResolve(c: Config, s: State, tid: nat): State
    requires tid < |s.threads| && s.threads[tid].Loaded?
  {
    var t := s.threads[tid];
    match Attempt(c, t.word, t.call)
    case Denied =>
      s.(threads := s.threads[tid := Idle],
         finished := s.finished + [Return(Entry(tid, t.call, false), t.slot, t.begun, |s.log|)])
    case Granted(next) =>
      if s.vt == t.word then
        var e := Entry(tid, t.call, true);
        s.(vt := next, threads := s.threads[tid := Idle], log := s.log + [e],
           commits := s.commits + [Commit(Call(t.call.n, Elapsed(t.call.now)), t.word, next)],
           committers := s.committers + [tid],
           finished := s.finished + [Return(e, |s.log|, t.begun, |s.log| + 1)])
      else
        s.(threads := s.threads[tid := Armed(t.call, t.begun)], lost := s.lost + 1)
  }

  /** One step; an action that its goroutine is not in a position to take changes nothing. */
  function Do(c: Config, s: State, a: Action): (s': State)
    ensures |s'.threads| == |s.threads|
  {
    if a.tid >= |s.threads| then s else
    match a
    case Enter(tid, n, reading) =>
      if s.threads[tid].Idle? && IsInt64(n) && IsInt64(reading) then DoEnter(c, s, tid, Call(n, reading)) else s
    case Load(tid) => if s.threads[tid].Armed? then DoLoad(c, s, tid) else s
    case Resolve(tid) => if s.threads[tid].Loaded? then DoResolve(c, s, tid) else s
  }

  /** The state after any interleaving of actions of m goroutines. */
  function Exec(c: Config, m: nat, actions: seq<Action>): (s: State)
    ensures |s.threads| == m
  {
    if actions == [] then Init(c, m)
    else Do(c, Exec(c, m, actions[..|actions| - 1]), actions[|actions| - 1])
  }

  // ---------------------------------------------------------------- the word and its commits

  predicate InLoop(c: Config, s: State, call: Call, begun: nat) {
    1 <= call.n <= c.capacity && IsInt64(call.now) && begun <= |s.log|
  }

  /** What holds of a goroutine holding a loaded word: it is the word after the commits seen, and
      every commit since is another goroutine's. */
  ghost predicate Held(c: Config, s: State, tid: nat, t: Thread)
    requires t.Loaded? && |s.committers| == |s.commits|
  {
    && InLoop(c, s, t.call, t.begun)
    && t.version <= |s.commits| && t.word == WordAfter(c, s.commits[..t.version])
    && (forall k :: t.version <= k < |s.commits| ==> s.committers[k] != tid)
  }

  ghost predicate WordsInv(c: Config, s: State) {
    && Chain(c, s.commits) && |s.committers| == |s.commits|
    && s.vt == WordAfter(c, s.commits)
    && (forall m <- s.commits :: m.call.now <= INT64_MAX)
    && (forall i :: 0 <= i < |s.threads| ==> ThreadInv(c, s, i, s.threads[i]))
  }

  ghost predicate ThreadInv(c: Config, s: State, tid: nat, t: Thread)
    requires |s.committers| == |s.commits|
  {
    match t
    case Idle => true
    case Armed(call, begun) => InLoop(c, s, call, begun)
    case Loaded(_, _, _, _, _) => Held(c, s, tid, t)
  }

  /** What an attempt on a word of the chain computes: the exact transition. */
  lemma AttemptIsExact(c: Config, s: State, k: nat, call: Call)
    requires Valid(c) && WordsInv(c, s) && k <= |s.commits|
    requires 1 <= call.n <= c.capacity && IsInt64(call.now)
    ensures var word := WordAfter(c, s.commits[..k]);
      && Exact64(c.capT, word, Elapsed(call.now), call.n * c.nanosPerToken)
      && Wrap64(call.n * c.nanosPerToken) == call.n * c.nanosPerToken
      && Attempt(c, word, call) == Advance(word, Elapsed(call.now), c.capT, call.n * c.nanosPerToken)
  {
    ChainInRange(c, s.commits, k);
    NoOverflow(c, WordAfter(c, s.commits[..k]), INT64_MAX, call.now, call.n);
  }

  /** No ABA: a goroutine finds the word it loaded exactly when nobody has committed since. */
  lemma SameWordMeansUndisturbed(c: Config, s: State, tid: nat)
    requires Valid(c) && WordsInv(c, s) && tid < |s.threads| && s.threads[tid].Loaded?
    ensures s.vt == s.threads[tid].word <==> s.threads[tid].version == |s.commits|
  {
    assert s.commits[..|s.commits|] == s.commits;
    WordsNeverRepeat(c, s.commits, s.threads[tid].version, |s.commits|);
  }

  /** A commit on the current word extends the chain, and every other goroutine's word stays a
      word of the chain, now with one more rival commit after it. */
  lemma CommitKeepsWords(c: Config, s: State, tid: nat)
    requires Valid(c) && WordsInv(c, s) && tid < |s.threads| && s.threads[tid].Loaded?
    ensures DoResolve(c, s, tid).commits != s.commits ==> WordsInv(c, DoResolve(c, s, tid))
  {
    var t, s' := s.threads[tid], DoResolve(c, s, tid);
    if s'.commits != s.commits {
      AttemptIsExact(c, s, t.version, t.call);
      ChainSnoc(c, s.commits, s'.commits[|s.commits|]);
      forall i | 0 <= i < |s'.threads|
        ensures ThreadInv(c, s', i, s'.threads[i])
      {
        assert ThreadInv(c, s, i, s.threads[i]);
        if s'.threads[i].Loaded? {
          HeldKept(c, s, s', i);
        }
      }
    }
  }

  lemma HeldKept(c: Config, s: State, s': State, i: nat)
    requires i < |s.threads| && s.threads[i].Loaded? && |s.committers| == |s.commits| && Held(c, s, i, s.threads[i])
    requires |s'.commits| == |s.commits| + 1 == |s'.committers|
    requires s.commits <= s'.commits && s.committers <= s'.committers
    requires s'.committers[|s.commits|] != i && |s.log| <= |s'.log|
    ensures Held(c, s', i, s.threads[i])
  {
    var v := s.threads[i].version;
    assert s'.commits[..v] == s.commits[..v];
  }

  /** A step that commits nothing: the acting goroutine's word, if it loads one, is the current one,
      and every other goroutine is where it was. */
  lemma NoCommitKeepsThread(c: Config, s: State, a: Action, i: nat)
    requires |s.committers| == |s.commits| && i < |s.threads| && ThreadInv(c, s, i, s.threads[i])
    requires s.vt == WordAfter(c, s.commits) && Do(c, s, a).commits == s.commits
    ensures Do(c, s, a).committers == s.committers && Do(c, s, a).vt == s.vt
    ensures ThreadInv(c, Do(c, s, a), i, Do(c, s, a).threads[i])
  {
    assert s.commits[..|s.commits|] == s.commits;
  }

  lemma WordsKept(c: Config, s: State, a: Action)
    requires Valid(c) && WordsInv(c, s)
    ensures WordsInv(c, Do(c, s, a))
  {
    var s' := Do(c, s, a);
    if s'.commits != s.commits {
      CommitKeepsWords(c, s, a.tid);
    } else if a.tid < |s.threads| {
      NoCommitKeepsThread(c, s, a, a.tid);
      forall i | 0 <= i < |s'.threads|
        ensures ThreadInv(c, s', i, s'.threads[i])
      {
        NoCommitKeepsThread(c, s, a, i);
      }
    }
  }

  // ---------------------------------------------------------------- the serialisation

  function CallsOf(log: seq<Entry>): seq<Call> {
    seq(|log|, i requires 0 <= i < |log| => log[i].call)
  }

  function OksOf(log: seq<Entry>): seq<bool> {
    seq(|log|, i requires 0 <= i < |log| => log[i].ok)
  }

  /** Made one after another in the order of the log, the same calls at the same readings return
      the logged verdicts and leave the same word. */
  ghost predicate SerialInv(c: Config, s: State) {
    && Verdicts(Policy(c), FullAt(c), CallsOf(s.log)) == OksOf(s.log)
    && Final(Policy(c), FullAt(c), CallsOf(s.log)) == s.vt
  }

  lemma LogSnoc(c: Config, s: State, s': State, e: Entry)
    requires SerialInv(c, s) && s'.log == s.log + [e]
    requires Step(c, s.vt, e.call) == Outcome(s'.vt, e.ok)
    ensures SerialInv(c, s')
  {
    assert CallsOf(s'.log) == CallsOf(s.log) + [e.call];
    assert OksOf(s'.log) == OksOf(s.log) + [e.ok];
    RunSnoc(Policy(c), FullAt(c), CallsOf(s.log), e.call);
  }

  lemma SerialKept(c: Config, s: State, a: Action)
    requires Valid(c) && WordsInv(c, s) && SerialInv(c, s)
    ensures SerialInv(c, Do(c, s, a))
  {
    var s' := Do(c, s, a);
    if |s'.log| > |s.log| {
      assert s.commits[..|s.commits|] == s.commits;
      var e := s'.log[|s.log|];
      if !a.Enter? {
        AttemptIsExact(c, s, |s.commits|, s.threads[a.tid].call);
      }
      LogSnoc(c, s, s', e);
    }
  }

  /** The logged grants of positive batches, in order: the entries that spent something. */
  function Spends(log: seq<Entry>): seq<Entry> {
    if log == [] then [] else
    var e := log[|log| - 1];
    Spends(log[..|log| - 1]) + if e.ok && e.call.n > 0 then [e] else []
  }

  /** One entry per commit, in CAS order: the same goroutine, batch and (clamped) reading. */
  predicate LogsCommits(spends: seq<Entry>, commits: seq<Commit>, committers: seq<nat>) {
    && |spends| == |commits| == |committers|
    && (forall k :: 0 <= k < |spends| ==> spends[k].tid == committers[k])
    && (forall k :: 0 <= k < |spends| ==> commits[k].call == Call(spends[k].call.n, Elapsed(spends[k].call.now)))
  }

  lemma SpendsSnoc(log: seq<Entry>, e: Entry)
    ensures Spends(log + [e]) == Spends(log) + if e.ok && e.call.n > 0 then [e] else []
  {
    assert (log + [e])[..|log|] == log;
  }

  lemma CommitsSnoc(spends: seq<Entry>, commits: seq<Commit>, committers: seq<nat>, e: Entry, m: Commit)
    requires LogsCommits(spends, commits, committers) && m.call == Call(e.call.n, Elapsed(e.call.now))
    ensures LogsCommits(spends + [e], commits + [m], committers + [e.tid])
  {
  }

  /** A step logs a spending entry exactly when it commits. */
  lemma SpendsMove(c: Config, s: State, a: Action)
    requires a.tid < |s.threads| && s.threads[a.tid].Loaded? ==> s.threads[a.tid].call.n >= 1
    ensures var s' := Do(c, s, a);
      if s'.commits == s.commits then Spends(s'.log) == Spends(s.log) && s'.committers == s.committers
      else
        var t := s.threads[a.tid];
        && a.tid < |s.threads| && t.Loaded?
        && Spends(s'.log) == Spends(s.log) + [Entry(a.tid, t.call, true)]
        && s'.committers == s.committers + [a.tid]
        && exists m :: s'.commits == s.commits + [m] && m.call == Call(t.call.n, Elapsed(t.call.now))
  {
    var s' := Do(c, s, a);
    if |s'.log| > |s.log| {
      SpendsSnoc(s.log, s'.log[|s.log|]);
      assert s'.log == s.log + [s'.log[|s.log|]];
    }
  }

  lemma SpendsKept(c: Config, s: State, a: Action)
    requires WordsInv(c, s) && LogsCommits(Spends(s.log), s.commits, s.committers)
    ensures var s' := Do(c, s, a); LogsCommits(Spends(s'.log), s'.commits, s'.committers)
  {
    var s' := Do(c, s, a);
    SpendsMove(c, s, a);
    if s'.commits != s.commits {
      var t := s.threads[a.tid];
      var m :| s'.commits == s.commits + [m] && m.call == Call(t.call.n, Elapsed(t.call.now));
      CommitsSnoc(Spends(s.log), s.commits, s.committers, Entry(a.tid, t.call, true), m);
    }
  }

  // ---------------------------------------------------------------- returns

  /** Each return is backed by its own log entry, placed during the call's execution. */
  ghost predicate BackedReturns(s: State) {
    && (forall r <- s.finished :: r.begun <= r.slot < r.returned <= |s.log| && s.log[r.slot] == r.entry)
    && (forall i, j :: 0 <= i < j < |s.finished| ==> s.finished[i].slot != s.finished[j].slot)
  }

  ghost predicate ReturnsInv(c: Config, s: State) {
    && BackedReturns(s)
    && InvocationsInv(s)
    && (forall i :: 0 <= i < |s.threads| && Pending(c, s.threads[i]) ==> PlacedAt(s, i, s.threads[i]))
  }

  /** Calls under way began no later than now. */
  predicate InvocationsInv(s: State) {
    forall i :: 0 <= i < |s.threads| && !s.threads[i].Idle? ==> s.threads[i].begun <= |s.log|
  }

  /** A goroutine whose loaded word denies it: it is on its way to returning false. */
  predicate Pending(c: Config, t: Thread) {
    t.Loaded? && Attempt(c, t.word, t.call).Denied?
  }

  ghost predicate PlacedAt(s: State, tid: nat, t: Thread)
    requires t.Loaded?
  {
    && t.begun <= t.slot < |s.log| && s.log[t.slot] == Entry(tid, t.call, false)
    && (forall r <- s.finished :: r.slot != t.slot)
  }

  /** Finishing a call under a slot of its own keeps the returns backed and their slots distinct. */
  lemma ReturnSnoc(s: State, s': State, r: Return)
    requires BackedReturns(s) && s.log <= s'.log && s'.finished == s.finished + [r]
    requires r.begun <= r.slot < r.returned <= |s'.log| && s'.log[r.slot] == r.entry
    requires forall x <- s.finished :: x.slot != r.slot
    ensures BackedReturns(s')
  {
    forall i, j | 0 <= i < j < |s'.finished|
      ensures s'.finished[i].slot != s'.finished[j].slot
    {
      assert s'.finished[i] == s.finished[i] && s.finished[i] in s.finished;
    }
  }

  /** A pending denial keeps its place when another goroutine moves. */
  lemma PlaceKept(s: State, s': State, tid: nat, t: Thread)
    requires t.Loaded? && PlacedAt(s, tid, t) && s.log <= s'.log
    requires s'.finished == s.finished
             || exists r :: s'.finished == s.finished + [r] && r.slot < |s'.log| && s'.log[r.slot].tid != tid
    ensures PlacedAt(s', tid, t)
  {
  }

  lemma BackingKept(c: Config, s: State, a: Action)
    requires ReturnsInv(c, s)
    ensures BackedReturns(Do(c, s, a))
  {
    var s' := Do(c, s, a);
    if |s'.finished| > |s.finished| {
      ReturnSnoc(s, s', s'.finished[|s.finished|]);
    }
  }

  lemma ReturnsKept(c: Config, s: State, a: Action)
    requires ReturnsInv(c, s)
    ensures ReturnsInv(c, Do(c, s, a))
  {
    var s' := Do(c, s, a);
    BackingKept(c, s, a);
    forall i | 0 <= i < |s'.threads| && Pending(c, s'.threads[i])
      ensures PlacedAt(s', i, s'.threads[i])
    {
      if i != a.tid {
        if s'.finished != s.finished {
          var r := s'.finished[|s.finished|];
          assert s'.log[r.slot] == r.entry;
        }
        PlaceKept(s, s', i, s.threads[i]);
      } else if s' != s {
        assert forall r <- s.finished :: r.slot < |s.log|;
      }
    }
  }

  /** As many grants have returned as are logged: a grant takes effect and returns in one step. */
  function ReturnedOks(finished: seq<Return>): seq<bool> {
    seq(|finished|, i requires 0 <= i < |finished| => finished[i].entry.ok)
  }

  ghost predicate TallyInv(s: State) {
    CountTrue(ReturnedOks(s.finished)) == CountTrue(OksOf(s.log))
  }

  lemma TallyKept(c: Config, s: State, a: Action)
    requires TallyInv(s)
    ensures TallyInv(Do(c, s, a))
  {
    var s' := Do(c, s, a);
    if |s'.log| > |s.log| {
      var ok := s'.log[|s.log|].ok;
      assert OksOf(s'.log) == OksOf(s.log) + [ok];
      CountTrueSnoc(OksOf(s.log), ok);
    }
    if |s'.finished| > |s.finished| {
      var ok := s'.finished[|s.finished|].entry.ok;
      assert ReturnedOks(s'.finished) == ReturnedOks(s.finished) + [ok];
      CountTrueSnoc(ReturnedOks(s.finished), ok);
    }
  }

  // ---------------------------------------------------------------- lost CASes

  function Versions(threads: seq<Thread>): seq<int> {
    seq(|threads|, i requires 0 <= i < |threads| => if threads[i].Loaded? then threads[i].version else -1)
  }

  /** What a step does to the versions held: only the acting goroutine's changes. It is let go of
      by a commit or by a lost CAS on a stale version, and a load takes the current one. */
  lemma VersionsMove(c: Config, s: State, a: Action)
    requires Valid(c) && WordsInv(c, s) && a.tid < |s.threads|
    ensures var s' := Do(c, s, a);
      var held, held' := Versions(s.threads), Versions(s'.threads);
      && held' == held[a.tid := held'[a.tid]]
      && (if s'.commits != s.commits then
            |s'.commits| == |s.commits| + 1 && s'.lost == s.lost && held'[a.tid] == -1
          else
            && (s' == s || held'[a.tid] == -1 || held'[a.tid] == |s.commits|)
            && (s'.lost == s.lost || (s'.lost == s.lost + 1 && 0 <= held[a.tid] < |s.commits|)))
  {
    if s.threads[a.tid].Loaded? {
      SameWordMeansUndisturbed(c, s, a.tid);
    }
  }

  lemma PaymentKept(c: Config, s: State, a: Action)
    requires Valid(c) && WordsInv(c, s) && Paid(s.lost, Versions(s.threads), |s.commits|)
    ensures var s' := Do(c, s, a); Paid(s'.lost, Versions(s'.threads), |s'.commits|)
  {
    var s' := Do(c, s, a);
    if a.tid < |s.threads| && s' != s {
      VersionsMove(c, s, a);
      var held, x := Versions(s.threads), Versions(s'.threads)[a.tid];
      if s'.commits == s.commits {
        MovePays(s.lost, s'.lost, held, a.tid, x, |s.commits|);
      } else {
        CommitPays(s.lost, held, a.tid, |s.commits|);
      }
    }
  }

  // ---------------------------------------------------------------- every reachable state

  ghost predicate Inv(c: Config, s: State) {
    && WordsInv(c, s) && SerialInv(c, s) && ReturnsInv(c, s) && TallyInv(s)
    && LogsCommits(Spends(s.log), s.commits, s.committers)
    && (|s.threads| >= 1 ==> Paid(s.lost, Versions(s.threads), |s.commits|))
  }

  lemma {:induction false} NoneStale(threads: seq<Thread>)
    requires forall t <- threads :: t.Idle?
    ensures Stale(Versions(threads), 0) == 0
    decreases |threads|
  {
    if threads != [] {
      assert Versions(threads)[1..] == Versions(threads[1..]);
      NoneStale(threads[1..]);
    }
  }

  lemma InitInv(c: Config, m: nat)
    requires Valid(c)
    ensures Inv(c, Init(c, m))
  {
    NoneStale(Init(c, m).threads);
  }

  lemma InvKept(c: Config, s: State, a: Action)
    requires Valid(c) && Inv(c, s)
    ensures Inv(c, Do(c, s, a))
  {
    WordsKept(c, s, a);
    SerialKept(c, s, a);
    SpendsKept(c, s, a);
    ReturnsKept(c, s, a);
    TallyKept(c, s, a);
    if |s.threads| >= 1 {
      PaymentKept(c, s, a);
    }
  }

  lemma {:induction false} Reachable(c: Config, m: nat, actions: seq<Action>)
    requires Valid(c)
    ensures Inv(c, Exec(c, m, actions))
    decreases |actions|
  {
    if actions == [] {
      InitInv(c, m);
    } else {
      var s, a := Exec(c, m, actions[..|actions| - 1]), actions[|actions| - 1];
      Reachable(c, m, actions[..|actions| - 1]);
      InvKept(c, s, a);
    }
  }

  lemma ReachableWords(c: Config, m: nat, actions: seq<Action>)
    requires Valid(c)
    ensures WordsInv(c, Exec(c, m, actions))
  {
    Reachable(c, m, actions);
  }

  // ---------------------------------------------------------------- what every interleaving keeps

  /** The word never leaves int64: it starts a full bucket in the past, and is never past the
      reading of the latest commit. Nor does any operation of an attempt on it, or on any word a
      goroutine still holds. */
  lemma NothingOverflows(c: Config, m: nat, actions: seq<Action>, call: Call)
    requires Valid(c)
    ensures var s := Exec(c, m, actions);
      && InRange(c, s.vt, INT64_MAX)
      && s.vt <= (if s.commits == [] then -c.capT else s.commits[|s.commits| - 1].call.now)
      && (1 <= call.n <= c.capacity && IsInt64(call.now) ==>
            Exact64(c.capT, s.vt, Elapsed(call.now), call.n * c.nanosPerToken))
      && (forall t <- s.threads :: t.Loaded? ==>
            Exact64(c.capT, t.word, Elapsed(t.call.now), t.call.n * c.nanosPerToken))
  {
    var s := Exec(c, m, actions);
    ReachableWords(c, m, actions);
    assert s.commits[..|s.commits|] == s.commits;
    ChainInRange(c, s.commits, |s.commits|);
    if 1 <= call.n <= c.capacity && IsInt64(call.now) {
      AttemptIsExact(c, s, |s.commits|, call);
    }
    forall t <- s.threads | t.Loaded?
      ensures Exact64(c.capT, t.word, Elapsed(t.call.now), t.call.n * c.nanosPerToken)
    {
      var i :| 0 <= i < |s.threads| && s.threads[i] == t;
      AttemptIsExact(c, s, t.version, t.call);
    }
  }

  /** Every interleaving is a serial run: in the order of the log, calls made one after another at
      the same readings return the same verdicts and leave the same word. Its grants are the commits,
      in CAS order, and every call that returned has an entry of its own with its verdict, placed
      while it was executing. */
  lemma EveryInterleavingIsSerial(c: Config, m: nat, actions: seq<Action>)
    requires Valid(c)
    ensures var s := Exec(c, m, actions);
      && Verdicts(Policy(c), FullAt(c), CallsOf(s.log)) == OksOf(s.log)
      && Final(Policy(c), FullAt(c), CallsOf(s.log)) == s.vt
      && LogsCommits(Spends(s.log), s.commits, s.committers)
      && (forall r <- s.finished :: r.begun <= r.slot < r.returned <= |s.log| && s.log[r.slot] == r.entry)
      && (forall i, j :: 0 <= i < j < |s.finished| ==> s.finished[i].slot != s.finished[j].slot)
  {
    Reachable(c, m, actions);
  }

  /** So in that order every call got the verdict that the admission bound asks for, given the grants
      before it. */
  lemma InterleavingsObeyTheRule(c: Config, m: nat, actions: seq<Action>)
    requires Valid(c)
    ensures var log := Exec(c, m, actions).log; Obeys(AtomicRule(c), CallsOf(log), OksOf(log))
  {
    var log := Exec(c, m, actions).log;
    EveryInterleavingIsSerial(c, m, actions);
    VerdictsAreExact(c, CallsOf(log), OksOf(log));
  }

  /** If the readings come in the order of the log, the serial run is that of a token bucket. */
  lemma OrderedReadingsRefineTokens(c: Config, m: nat, actions: seq<Action>)
    requires Valid(c) && Ordered(CallsOf(Exec(c, m, actions).log), 0)
    ensures var p, s := AtomicRefinements.Tokens(c), Exec(c, m, actions);
      Verdicts(TB.Policy(p), TB.Full(p, 0), CallsOf(s.log)) == OksOf(s.log)
  {
    Reachable(c, m, actions);
    AtomicRefinements.StoringTimeRefinesTokens(c, CallsOf(Exec(c, m, actions).log));
  }

  // ---------------------------------------------------------------- the order of the readings

  /** The step takes its goroutine into a call. */
  predicate Enters(s: State, a: Action) {
    a.Enter? && a.tid < |s.threads| && s.threads[a.tid].Idle? && IsInt64(a.n) && IsInt64(a.reading)
  }

  /** The calls made, each with its reading, in the order in which the readings were taken. A batch
      turned away at once is given the reading it would have taken. */
  function Entered(c: Config, m: nat, actions: seq<Action>): seq<Call> {
    if actions == [] then [] else
    var front, a := actions[..|actions| - 1], actions[|actions| - 1];
    Entered(c, m, front) + if Enters(Exec(c, m, front), a) then [Call(a.n, a.reading)] else []
  }

  /** The clock keeps its contract: its readings are not negative and never decrease. */
  predicate Clocked(c: Config, m: nat, actions: seq<Action>) {
    Ordered(Entered(c, m, actions), 0)
  }

  /** The logged calls can be put in the order of their own readings so that, made one after
      another in that order, they return the logged verdicts. */
  ghost predicate LinearAtReadings(c: Config, log: seq<Entry>) {
    exists order: seq<Entry> ::
      && multiset(order) == multiset(log)
      && Ordered(CallsOf(order), 0)
      && Verdicts(Policy(c), FullAt(c), CallsOf(order)) == OksOf(order)
  }

  /** Whether every interleaving over a proper clock linearises at its own readings. */
  ghost predicate LinearizesAtReadings(c: Config, m: nat) {
    forall actions | Clocked(c, m, actions) :: LinearAtReadings(c, Exec(c, m, actions).log)
  }

  /** A call still in the loop whose verdict has not been placed in the log. */
  predicate Undecided(c: Config, t: Thread) {
    t.Armed? || (t.Loaded? && !Pending(c, t))
  }

  /** One goroutine at most is ever undecided, and no reading in the log is later than its own. */
  ghost predicate ReadingsInLogOrder(c: Config, s: State, last: int) {
    && Ordered(CallsOf(s.log), 0) && LastReading(CallsOf(s.log), 0) <= last
    && (c.capacity <= 0 ==> forall i :: 0 <= i < |s.threads| ==> s.threads[i].Idle?)
    && (forall i :: 0 <= i < |s.threads| && Undecided(c, s.threads[i]) ==>
          LastReading(CallsOf(s.log), 0) <= s.threads[i].call.now <= last)
  }

  lemma ReadingsSnoc(s: State, s': State, e: Entry)
    requires Ordered(CallsOf(s.log), 0) && s'.log == s.log + [e]
    requires Readable(LastReading(CallsOf(s.log), 0), e.call)
    ensures Ordered(CallsOf(s'.log), 0)
    ensures LastReading(CallsOf(s'.log), 0) == After(LastReading(CallsOf(s.log), 0), e.call)
  {
    assert CallsOf(s'.log) == CallsOf(s.log) + [e.call];
    OrderedSnoc(CallsOf(s.log), e.call, 0);
  }

  lemma ReadingsKept(c: Config, s: State, a: Action, last: int)
    requires |s.threads| <= 1 || c.capacity <= 0
    requires WordsInv(c, s) && ReadingsInLogOrder(c, s, last)
    requires Enters(s, a) ==> Readable(last, Call(a.n, a.reading))
    ensures ReadingsInLogOrder(c, Do(c, s, a), if Enters(s, a) then After(last, Call(a.n, a.reading)) else last)
  {
    var s' := Do(c, s, a);
    if |s'.log| > |s.log| {
      ReadingsSnoc(s, s', s'.log[|s.log|]);
    }
  }

  lemma {:induction false} UnsharedKeepsReadingOrder(c: Config, m: nat, actions: seq<Action>)
    requires Valid(c) && (m <= 1 || c.capacity <= 0) && Clocked(c, m, actions)
    ensures ReadingsInLogOrder(c, Exec(c, m, actions), LastReading(Entered(c, m, actions), 0))
    decreases |actions|
  {
    if actions != [] {
      var front, a := actions[..|actions| - 1], actions[|actions| - 1];
      var s, calls := Exec(c, m, front), Entered(c, m, front);
      ReachableWords(c, m, front);
      if Enters(s, a) {
        OrderedFront(calls, Call(a.n, a.reading), 0);
      } else {
        assert calls + [] == calls;
      }
      UnsharedKeepsReadingOrder(c, m, front);
      ReadingsKept(c, s, a, LastReading(calls, 0));
    }
  }

  /** The early call reads the clock first, but the late one, a full bucket later, spends everything
      before the early one loads. */
  function Overtaking(c: Config): seq<Action> {
    [Enter(0, 1, 0), Enter(1, c.capacity, c.capT), Load(1), Resolve(1), Load(0), Resolve(0)]
  }

  function Early(): Call {
    Call(1, 0)
  }

  function Late(c: Config): Call {
    Call(c.capacity, c.capT)
  }

  function BothEntered(c: Config, m: nat): State
    requires m >= 2
  {
    var s := Init(c, m);
    s.(threads := s.threads[0 := Armed(Early(), 0)][1 := Armed(Late(c), 0)])
  }

  lemma OvertakingEnters(c: Config, m: nat)
    requires Valid(c) && c.capacity >= 1 && m >= 2
    ensures var a := Overtaking(c);
      && Exec(c, m, a[..2]) == BothEntered(c, m)
      && Entered(c, m, a[..2]) == [Early(), Late(c)]
  {
    var a := Overtaking(c);
    assert a[..2][..1] == a[..1] && a[..1][..0] == [];
    assert Exec(c, m, a[..1]) == Do(c, Init(c, m), a[0]);
    assert Exec(c, m, a[..2]) == Do(c, Exec(c, m, a[..1]), a[1]);
    assert Entered(c, m, a[..1]) == [] + [Early()];
    assert Entered(c, m, a[..2]) == Entered(c, m, a[..1]) + [Late(c)];
  }

  lemma OvertakingCommits(c: Config, m: nat)
    requires Valid(c) && c.capacity >= 1 && m >= 2
    ensures var s := BothEntered(c, m);
      var s' := Do(c, Do(c, s, Load(1)), Resolve(1));
      s'.vt == c.capT && s'.threads == s.threads[1 := Idle] && s'.log == [Entry(1, Late(c), true)]
  {
    var s := BothEntered(c, m);
    InitInv(c, m);
    CostBounds(c, c.capacity);
    AttemptIsExact(c, Init(c, m), 0, Late(c));
    assert Attempt(c, FullAt(c), Late(c)) == Granted(c.capT);
    var loaded := Do(c, s, Load(1));
    assert loaded == s.(threads := s.threads[1 := Loaded(Late(c), 0, s.vt, 0, 0)]);
  }

  lemma OvertakenIsDenied(c: Config, s: State)
    requires Valid(c) && c.capacity >= 1 && |s.threads| >= 1
    requires s.vt == c.capT && s.threads[0] == Armed(Early(), 0)
    ensures var s' := Do(c, Do(c, s, Load(0)), Resolve(0));
      s'.threads == s.threads[0 := Idle] && s'.log == s.log + [Entry(0, Early(), false)]
  {
    CostBounds(c, 1);
    NoOverflow(c, s.vt, INT64_MAX, 0, 1);
    assert Attempt(c, s.vt, Early()) == Denied;
  }

  lemma {:induction false} NoMoreEnter(c: Config, m: nat, front: seq<Action>, rest: seq<Action>)
    requires forall a <- rest :: !a.Enter?
    ensures Entered(c, m, front + rest) == Entered(c, m, front)
    decreases |rest|
  {
    if rest == [] {
      assert front + rest == front;
    } else {
      var last := rest[|rest| - 1];
      assert (front + rest)[..|front + rest| - 1] == front + rest[..|rest| - 1];
      NoMoreEnter(c, m, front, rest[..|rest| - 1]);
    }
  }

  lemma OvertakingIsClocked(c: Config, m: nat)
    requires Valid(c) && c.capacity >= 1 && m >= 2
    ensures Clocked(c, m, Overtaking(c))
  {
    var a := Overtaking(c);
    OvertakingEnters(c, m);
    NoMoreEnter(c, m, a[..2], a[2..]);
    assert a[..2] + a[2..] == a;
    assert [Early(), Late(c)][1..] == [Late(c)] && [Late(c)][1..] == [];
    CapTNotNegative(c);
  }

  lemma LastFour(c: Config, m: nat, a: seq<Action>)
    requires |a| == 6
    ensures Exec(c, m, a) == Do(c, Do(c, Do(c, Do(c, Exec(c, m, a[..2]), a[2]), a[3]), a[4]), a[5])
  {
    assert a[..5][..4] == a[..4] && a[..4][..3] == a[..3] && a[..3][..2] == a[..2];
    assert Exec(c, m, a[..3]) == Do(c, Exec(c, m, a[..2]), a[2]);
    assert Exec(c, m, a[..4]) == Do(c, Exec(c, m, a[..3]), a[3]);
    assert Exec(c, m, a[..5]) == Do(c, Exec(c, m, a[..4]), a[4]);
  }

  /** Both calls return, the late one granted and the early one denied. */
  lemma OvertakingRuns(c: Config, m: nat)
    requires Valid(c) && c.capacity >= 1 && m >= 2
    ensures var s := Exec(c, m, Overtaking(c));
      && s.threads == Init(c, m).threads
      && s.log == [Entry(1, Late(c), true), Entry(0, Early(), false)]
  {
    LastFour(c, m, Overtaking(c));
    OvertakingEnters(c, m);
    OvertakingCommits(c, m);
    OvertakenIsDenied(c, Do(c, Do(c, BothEntered(c, m), Load(1)), Resolve(1)));
  }

  lemma EarlyFits(c: Config)
    requires Valid(c) && c.capacity >= 1
    ensures Step(c, FullAt(c), Early()).ok
  {
    CostBounds(c, 1);
  }

  /** In the order of the readings the early call comes first, and would have been granted. */
  lemma OvertakingIsNotLinear(c: Config)
    requires Valid(c) && c.capacity >= 1
    ensures !LinearAtReadings(c, [Entry(1, Late(c), true), Entry(0, Early(), false)])
  {
    var late, early := Entry(1, Late(c), true), Entry(0, Early(), false);
    CostBounds(c, 1);
    EarlyFits(c);
    forall order: seq<Entry> | multiset(order) == multiset([late, early]) && Ordered(CallsOf(order), 0)
      ensures Verdicts(Policy(c), FullAt(c), CallsOf(order)) != OksOf(order)
    {
      FirstOfTwo(order, late, early);
      assert CallsOf(order)[0] == Early() && Policy(c)(FullAt(c), Early()).ok;
      assert Verdicts(Policy(c), FullAt(c), CallsOf(order))[0] && !OksOf(order)[0];
    }
  }

  lemma FirstOfTwo(order: seq<Entry>, late: Entry, early: Entry)
    requires multiset(order) == multiset([late, early]) && Ordered(CallsOf(order), 0)
    requires late.call.n > 0 && early.call.n > 0 && early.call.now < late.call.now
    ensures |order| == 2 && order[0] == early
  {
    assert |multiset(order)| == 2;
    assert forall e <- order :: e in multiset([late, early]);
  }

  /** A call can be placed at its own reading, in every interleaving over a proper clock, exactly when
      calls cannot race: with at most one goroutine, or with no capacity to race for. */
  lemma LinearizesAtReadingsIff(c: Config, m: nat)
    requires Valid(c)
    ensures LinearizesAtReadings(c, m) <==> m <= 1 || c.capacity <= 0
  {
    if m <= 1 || c.capacity <= 0 {
      forall actions | Clocked(c, m, actions)
        ensures LinearAtReadings(c, Exec(c, m, actions).log)
      {
        UnsharedKeepsReadingOrder(c, m, actions);
        EveryInterleavingIsSerial(c, m, actions);
      }
    } else {
      OvertakingIsClocked(c, m);
      OvertakingRuns(c, m);
      OvertakingIsNotLinear(c);
    }
  }

  /** The same serial run, on the token bucket. */
  ghost predicate TokensAtReadings(c: Config, log: seq<Entry>)
    requires Valid(c)
  {
    var p := AtomicRefinements.Tokens(c);
    exists order: seq<Entry> ::
      && multiset(order) == multiset(log)
      && Ordered(CallsOf(order), 0)
      && Verdicts(TB.Policy(p), TB.Full(p, 0), CallsOf(order)) == OksOf(order)
  }

  /** In the order of its readings a log is that of the one-word bucket exactly when it is that of
      the token bucket. */
  lemma ReadingsRefineTokens(c: Config, log: seq<Entry>)
    requires Valid(c)
    ensures LinearAtReadings(c, log) <==> TokensAtReadings(c, log)
  {
    forall order: seq<Entry> | Ordered(CallsOf(order), 0)
      ensures var p := AtomicRefinements.Tokens(c);
        Verdicts(Policy(c), FullAt(c), CallsOf(order)) == Verdicts(TB.Policy(p), TB.Full(p, 0), CallsOf(order))
    {
      AtomicRefinements.StoringTimeRefinesTokens(c, CallsOf(order));
    }
  }

  /** So the same condition says when every interleaving answers as the token bucket could have. */
  lemma RefinesTokensIff(c: Config, m: nat)
    requires Valid(c)
    ensures (forall actions | Clocked(c, m, actions) :: TokensAtReadings(c, Exec(c, m, actions).log))
            <==> m <= 1 || c.capacity <= 0
  {
    LinearizesAtReadingsIff(c, m);
    forall actions | Clocked(c, m, actions)
      ensures LinearAtReadings(c, Exec(c, m, actions).log) <==> TokensAtReadings(c, Exec(c, m, actions).log)
    {
      ReadingsRefineTokens(c, Exec(c, m, actions).log);
    }
  }

  /** No stretch of commits of any interleaving over-admits. */
  lemma NoStretchOverAdmits(c: Config, m: nat, actions: seq<Action>, i: nat, j: nat)
    requires Valid(c) && i <= j < |Exec(c, m, actions).commits|
    ensures var commits := Exec(c, m, actions).commits;
      CommittedUnits(commits[i..j + 1]) * c.nanosPerToken <= c.capT + commits[j].call.now - commits[i].call.now
  {
    ReachableWords(c, m, actions);
    NeverOverAdmits(c, Exec(c, m, actions).commits, i, j);
  }

  /** No ABA: a goroutine's CAS finds the value it loaded exactly when nobody committed since the
      load; and if somebody did, it was another goroutine. So its next step returns false on a
      denying word, and otherwise commits and returns true if undisturbed, or else loses the CAS
      and goes round again with the same batch and the same reading. */
  lemma CasDetectsEveryCommit(c: Config, m: nat, actions: seq<Action>, tid: nat)
    requires Valid(c) && tid < m && Exec(c, m, actions).threads[tid].Loaded?
    ensures var s := Exec(c, m, actions);
      var t, s' := s.threads[tid], Do(c, s, Resolve(tid));
      && (s.vt == t.word <==> t.version == |s.commits|)
      && t.version <= |s.commits| == |s.committers|
      && (forall k :: t.version <= k < |s.commits| ==> s.committers[k] != tid)
      && (if Pending(c, t) then
            Answered(s, s', tid, t, false) && s'.commits == s.commits && s'.lost == s.lost
          else if t.version == |s.commits| then
            Answered(s, s', tid, t, true) && |s'.commits| == |s.commits| + 1 && s'.lost == s.lost
          else
            s' == s.(threads := s.threads[tid := Armed(t.call, t.begun)], lost := s.lost + 1))
  {
    ReachableWords(c, m, actions);
    SameWordMeansUndisturbed(c, Exec(c, m, actions), tid);
  }

  /** The goroutine has returned this verdict for this call, and is outside again. A grant takes
      effect now; a denial took effect at the load, in the slot taken then. */
  predicate Answered(s: State, s': State, tid: nat, t: Thread, ok: bool)
    requires t.Loaded? && tid < |s'.threads|
  {
    && s'.threads[tid] == Idle
    && s'.finished == s.finished + [Return(Entry(tid, t.call, ok), if ok then |s.log| else t.slot, t.begun, |s'.log|)]
    && s'.log == if ok then s.log + [Entry(tid, t.call, true)] else s.log
  }

  /** A denial takes effect at the load of the word that denies it, and at no other: loading logs it
      there and then, exactly when the serial step on the current word denies the call. */
  lemma DenialsTakeEffectAtTheirLoad(c: Config, m: nat, actions: seq<Action>, tid: nat)
    requires Valid(c) && tid < m && Exec(c, m, actions).threads[tid].Armed?
    ensures var s := Exec(c, m, actions);
      var t, s' := s.threads[tid], Do(c, s, Load(tid));
      && s'.threads == s.threads[tid := Loaded(t.call, t.begun, s.vt, |s.commits|, |s.log|)]
      && (Pending(c, s'.threads[tid]) <==> !Step(c, s.vt, t.call).ok)
      && s'.log == (if Step(c, s.vt, t.call).ok then s.log else s.log + [Entry(tid, t.call, false)])
      && s'.commits == s.commits && s'.finished == s.finished
  {
    var s := Exec(c, m, actions);
    ReachableWords(c, m, actions);
    assert s.commits[..|s.commits|] == s.commits;
    AttemptIsExact(c, s, |s.commits|, s.threads[tid].call);
  }

  /** Without interference a call is the sequential step: from any reachable state, entering, loading
      and resolving leaves its state, and returns its verdict for the very batch and reading. */
  lemma UncontendedCall(c: Config, m: nat, actions: seq<Action>, tid: nat, call: Call)
    requires Valid(c) && tid < m && Exec(c, m, actions).threads[tid].Idle?
    requires IsInt64(call.n) && IsInt64(call.now)
    ensures var s := Exec(c, m, actions);
      var s', o := Do(c, Do(c, Do(c, s, Enter(tid, call.n, call.now)), Load(tid)), Resolve(tid)), Step(c, s.vt, call);
      && s'.vt == o.state && s'.threads == s.threads
      && s'.log == s.log + [Entry(tid, call, o.ok)]
      && |s'.finished| == |s.finished| + 1 && s'.finished[|s.finished|].entry == Entry(tid, call, o.ok)
  {
    var s := Exec(c, m, actions);
    Reachable(c, m, actions);
    assert s.commits[..|s.commits|] == s.commits;
    if 1 <= call.n <= c.capacity {
      AttemptIsExact(c, s, |s.commits|, call);
    }
  }

  lemma LostAreCharged(c: Config, m: nat, actions: seq<Action>)
    requires Valid(c) && m >= 1
    ensures var s := Exec(c, m, actions); Paid(s.lost, Versions(s.threads), |s.commits|)
  {
    Reachable(c, m, actions);
  }

  /** Lock-freedom by counting: with m goroutines, at most m - 1 CASes are lost per commit. */
  lemma LostCasesArePaidFor(c: Config, m: nat, actions: seq<Action>)
    requires Valid(c) && m >= 1
    ensures var s := Exec(c, m, actions); s.lost <= (m - 1) * |s.commits|
  {
    var s := Exec(c, m, actions);
    LostAreCharged(c, m, actions);
    LostAtMost(s.lost, Versions(s.threads), |s.commits|);
  }

  /** With the clock stopped, of k calls of Allow that have returned, exactly min(k, capacity) were
      granted, whatever the interleaving. */
  lemma FrozenExactness(c: Config, m: nat, actions: seq<Action>, now: nat)
    requires Valid(c) && c.capacity >= 0 && Frozen(CallsOf(Exec(c, m, actions).log), now)
    ensures var s := Exec(c, m, actions);
      CountTrue(ReturnedOks(s.finished)) == if |s.finished| <= c.capacity then |s.finished| else c.capacity
  {
    var s := Exec(c, m, actions);
    Reachable(c, m, actions);
    AtomicRefinements.FrozenClock(c, now, CallsOf(s.log));
    var oks := ReturnedOks(s.finished);
    CountTrueAtMost(oks);
    CountTrueAtMost(OksOf(s.log));
    if false in oks {
      var i :| 0 <= i < |oks| && !oks[i];
      assert s.finished[i] in s.finished;
      assert !OksOf(s.log)[s.finished[i].slot];
    }
  }
}
