/** Any number of goroutines calling LockFreeTokenBucket.AllowN at once, as a machine whose steps are
    the atomic actions of the CAS loop: loading the pointer, reading the shared clock, and the
    compare-and-swap of pointers. Snapshots live at addresses, and the garbage collector may free
    any address nothing refers to, which a later snapshot may then reuse. */
module LockFreeThreads {
  import opened Limits
  import opened Runs
  import opened TokenBuckets
  import opened LockFreeTokenBuckets
  import opened Progress

  type Addr = nat

  /** Where a goroutine is in its call: about to load, holding a pointer, or holding a pointer and a
      clock reading. begun is the number of clock readings taken before the call; version (how many
      commits the load saw) and stamp (which reading this is) are bookkeeping for the proofs. */
  datatype Thread =
    | Idle
    | Entered(n: int, begun: nat)
    | Loaded(n: int, begun: nat, ptr: Addr, version: nat)
    | Timed(n: int, begun: nat, ptr: Addr, version: nat, now: int, stamp: nat)

  datatype Commit = Commit(tid: nat, call: Call, stamp: nat)

  /** A call that has returned: its verdict, the version it decided on, and the stretch of clock
      readings its execution spans. */
  datatype Return = Return(call: Call, ok: bool, version: nat, begun: nat, returned: nat)

  /** published[k] is the snapshot installed by the k-th commit (0: the constructor's); finished
      holds the returned calls by the stamp of their last clock reading. */
  datatype State = State(heap: map<Addr, Level>, head: Addr, clock: int, threads: seq<Thread>,
                         published: seq<Level>, commits: seq<Commit>, readings: seq<int>,
                         finished: map<nat, Return>, lost: nat)

  datatype Action =
    | Tick(d: nat)
    | Collect(addr: Addr)
    | Enter(tid: nat, n: int)
    | Load(tid: nat)
    | ReadClock(tid: nat)
    | Resolve(tid: nat, addr: Addr)

  function Init(p: Params, m: nat, origin: int): State {
    State(map[0 := Full(p, origin)], 0, origin, seq(m, _ => Idle), [Full(p, origin)], [], [], map[], 0)
  }

  predicate Holding(t: Thread) {
    t.Loaded? || t.Timed?
  }

  /** Live addresses: the published pointer, and those the goroutines still hold. */
  predicate Live(s: State, addr: Addr) {
    addr == s.head || exists t <- s.threads :: Holding(t) && t.ptr == addr
  }

  function DoLoad(s: State, tid: nat): State
    requires tid < |s.threads| && s.threads[tid].Entered?
  {
    var t := s.threads[tid];
    s.(threads := s.threads[tid := Loaded(t.n, t.begun, s.head, |s.commits|)])
  }

  function DoReadClock(s: State, tid: nat): State
    requires tid < |s.threads| && s.threads[tid].Loaded?
  {
    var t := s.threads[tid];
    s.(threads := s.threads[tid := Timed(t.n, t.begun, t.ptr, t.version, s.clock, |s.readings|)],
       readings := s.readings + [s.clock])
  }

  /** Deciding on the loaded snapshot: return false writing nothing, or try to publish the next
      snapshot, allocated at an address not in use. (The first test never finds a held pointer
      freed: that is part of HeapInv.) */
  function DoResolve(p: Params, s: State, tid: nat, addr: Addr): State
    requires tid < |s.threads| && s.threads[tid].Timed?
  {
    var t := s.threads[tid];
    if t.ptr !in s.heap || addr in s.heap then s else
    var next := NextLockFreeState(p, s.heap[t.ptr], t.now, t.n);
    var call := Call(t.n, t.now);
    if !next.ok then
      s.(threads := s.threads[tid := Idle],
         finished := s.finished[t.stamp := Return(call, false, t.version, t.begun, |s.readings|)])
    else if s.head == t.ptr then
      s.(heap := s.heap[addr := next.state], head := addr, threads := s.threads[tid := Idle],
         published := s.published + [next.state], commits := s.commits + [Commit(tid, call, t.stamp)],
         finished := s.finished[t.stamp := Return(call, true, t.version, t.begun, |s.readings|)])
    else
      s.(threads := s.threads[tid := Entered(t.n, t.begun)], lost := s.lost + 1)
  }

  /** One step; an action that is not possible changes nothing. A call with n <= 0 returns true
      without a step of its own: it touches nothing and reads no clock. */
  function Do(p: Params, s: State, a: Action): (s': State)
    ensures |s'.threads| == |s.threads|
  {
    match a
    case Tick(d) => s.(clock := s.clock + d)
    case Collect(addr) => if Live(s, addr) then s else s.(heap := s.heap - {addr})
    case Enter(tid, n) =>
      if tid < |s.threads| && s.threads[tid].Idle? && n > 0
      then s.(threads := s.threads[tid := Entered(n, |s.readings|)]) else s
    case Load(tid) => if tid < |s.threads| && s.threads[tid].Entered? then DoLoad(s, tid) else s
    case ReadClock(tid) => if tid < |s.threads| && s.threads[tid].Loaded? then DoReadClock(s, tid) else s
    case Resolve(tid, addr) =>
      if tid < |s.threads| && s.threads[tid].Timed? then DoResolve(p, s, tid, addr) else s
  }

  /** The state after any interleaving of actions of m goroutines, the clock and the collector. */
  function Exec(p: Params, m: nat, origin: int, actions: seq<Action>): (s: State)
    ensures |s.threads| == m
  {
    if actions == [] then Init(p, m, origin)
    else Do(p, Exec(p, m, origin, actions[..|actions| - 1]), actions[|actions| - 1])
  }

  // ---------------------------------------------------------------- pointers

  /** A held pointer still leads to the snapshot it was loaded as, it is the published one exactly
      when nobody has committed since, and whoever did was another goroutine. */
  ghost predicate Pinned(s: State, tid: nat, ptr: Addr, version: nat)
    requires |s.published| == |s.commits| + 1
  {
    && version <= |s.commits|
    && ptr in s.heap && s.heap[ptr] == s.published[version]
    && (ptr == s.head <==> version == |s.commits|)
    && (forall k :: version <= k < |s.commits| ==> s.commits[k].tid != tid)
  }

  ghost predicate HeapInv(s: State) {
    && |s.published| == |s.commits| + 1
    && s.head in s.heap && s.heap[s.head] == s.published[|s.commits|]
    && (forall i :: 0 <= i < |s.threads| ==>
          Holding(s.threads[i]) ==> Pinned(s, i, s.threads[i].ptr, s.threads[i].version))
  }

  lemma CollectKeepsHeap(s: State, s': State, addr: Addr)
    requires HeapInv(s) && !Live(s, addr) && s' == s.(heap := s.heap - {addr})
    ensures HeapInv(s')
  {
    forall i | 0 <= i < |s.threads| && Holding(s.threads[i])
      ensures Pinned(s', i, s.threads[i].ptr, s.threads[i].version)
    {
      assert Pinned(s, i, s.threads[i].ptr, s.threads[i].version);
      assert s.threads[i] in s.threads;
    }
  }

  lemma PublishKeepsHeap(p: Params, s: State, tid: nat, addr: Addr)
    requires HeapInv(s) && tid < |s.threads| && s.threads[tid].Timed?
    ensures HeapInv(DoResolve(p, s, tid, addr))
  {
    var s' := DoResolve(p, s, tid, addr);
    if |s'.commits| > |s.commits| {
      forall i | 0 <= i < |s'.threads| && Holding(s'.threads[i])
        ensures Pinned(s', i, s'.threads[i].ptr, s'.threads[i].version)
      {
        assert i != tid && s'.threads[i] == s.threads[i];
        assert Pinned(s, i, s.threads[i].ptr, s.threads[i].version);
      }
    }
  }

  lemma HeapKept(p: Params, s: State, a: Action)
    requires HeapInv(s)
    ensures HeapInv(Do(p, s, a))
  {
    if a.Resolve? {
      if a.tid < |s.threads| && s.threads[a.tid].Timed? {
        PublishKeepsHeap(p, s, a.tid, a.addr);
      }
    } else if a.Collect? && !Live(s, a.addr) {
      CollectKeepsHeap(s, Do(p, s, a), a.addr);
    }
  }

  // ---------------------------------------------------------------- clock readings

  ghost predicate ClockInv(s: State, origin: int) {
    && origin <= s.clock
    && (forall i :: 0 <= i < |s.readings| ==> origin <= s.readings[i] <= s.clock)
    && (forall i, j :: 0 <= i < j < |s.readings| ==> s.readings[i] <= s.readings[j])
  }

  // ---------------------------------------------------------------- commits and returns

  /** The k-th commit turned snapshot k into snapshot k + 1, at its own reading; stamps rise. */
  ghost predicate CommitsInv(p: Params, origin: int, s: State) {
    && |s.published| == |s.commits| + 1 && s.published[0] == Full(p, origin)
    && (forall k :: 0 <= k < |s.commits| ==> Replaces(p, s, k))
    && (forall j, k :: 0 <= j < k < |s.commits| ==> s.commits[j].stamp < s.commits[k].stamp)
  }

  predicate Replaces(p: Params, s: State, k: nat)
    requires k < |s.commits| && k + 1 < |s.published|
  {
    var m := s.commits[k];
    && m.stamp < |s.readings| && m.call.now == s.readings[m.stamp] && m.call.n > 0
    && NextLockFreeState(p, s.published[k], m.call.now, m.call.n) == Outcome(s.published[k + 1], true)
  }

  /** The first version commits were all stamped before the given reading. */
  predicate Precede(s: State, version: nat, stamp: nat) {
    version <= |s.commits| && forall k :: 0 <= k < version ==> s.commits[k].stamp < stamp
  }

  predicate Placed(s: State, t: Thread) {
    && (!t.Idle? ==> t.n > 0 && t.begun <= |s.readings|)
    && (t.Timed? ==>
          && t.begun <= t.stamp < |s.readings| && t.now == s.readings[t.stamp]
          && Precede(s, t.version, t.stamp) && t.stamp !in s.finished)
  }

  ghost predicate ThreadsInv(s: State) {
    && (forall i :: 0 <= i < |s.threads| ==> Placed(s, s.threads[i]))
    && (forall i, j :: 0 <= i < j < |s.threads| && s.threads[i].Timed? && s.threads[j].Timed? ==>
          s.threads[i].stamp != s.threads[j].stamp)
  }

  /** A returned grant is its commit; a returned denial was decided on a snapshot published before
      its reading. */
  ghost predicate Backed(p: Params, s: State, stamp: nat, r: Return)
    requires |s.published| == |s.commits| + 1
  {
    && stamp < |s.readings| && r.call.now == s.readings[stamp] && r.call.n > 0
    && r.begun <= stamp < r.returned <= |s.readings|
    && (if r.ok then
          r.version < |s.commits| && s.commits[r.version].stamp == stamp && s.commits[r.version].call == r.call
        else
          Precede(s, r.version, stamp) && !Covers(p, Refill(p, s.published[r.version], r.call.now), r.call.n))
  }

  ghost predicate FinishedInv(p: Params, s: State)
    requires |s.published| == |s.commits| + 1
  {
    && (forall k <- s.finished :: Backed(p, s, k, s.finished[k]))
    && (forall i :: 0 <= i < |s.commits| ==>
          s.commits[i].stamp in s.finished && s.finished[s.commits[i].stamp].ok)
  }

  ghost predicate LinearInv(p: Params, origin: int, s: State) {
    && HeapInv(s) && ClockInv(s, origin) && CommitsInv(p, origin, s) && ThreadsInv(s) && FinishedInv(p, s)
  }

  lemma ClockKept(p: Params, origin: int, s: State, a: Action)
    requires ClockInv(s, origin)
    ensures ClockInv(Do(p, s, a), origin)
  {
  }

  lemma CommitsKept(p: Params, origin: int, s: State, a: Action)
    requires LinearInv(p, origin, s)
    ensures CommitsInv(p, origin, Do(p, s, a))
  {
    var s' := Do(p, s, a);
    if |s'.commits| > |s.commits| {
      var t := s.threads[a.tid];
      assert Placed(s, t) && Pinned(s, a.tid, t.ptr, t.version);
      assert Precede(s, t.version, t.stamp);
    }
    forall k | 0 <= k < |s'.commits|
      ensures Replaces(p, s', k)
    {
      assert k < |s.commits| ==> Replaces(p, s, k);
    }
  }

  /** A goroutine that does not move stays well placed, unless a call returns under its stamp. */
  lemma PlacedKept(s: State, s': State, t: Thread)
    requires Placed(s, t) && s.readings <= s'.readings && s.commits <= s'.commits
    requires t.Timed? && t.stamp in s'.finished ==> t.stamp in s.finished
    ensures Placed(s', t)
  {
  }

  lemma PlacesKept(p: Params, origin: int, s: State, a: Action, i: nat)
    requires LinearInv(p, origin, s) && i < |s.threads|
    ensures Placed(Do(p, s, a), Do(p, s, a).threads[i])
  {
    var s' := Do(p, s, a);
    assert Placed(s, s.threads[i]);
    if s'.threads[i] == s.threads[i] {
      if s'.finished != s.finished {
        assert a.Resolve? && s.threads[a.tid].Timed?;
      }
      PlacedKept(s, s', s.threads[i]);
    } else if a.ReadClock? {
      assert forall k <- s.finished :: Backed(p, s, k, s.finished[k]);
    }
  }

  lemma StampsKept(p: Params, origin: int, s: State, a: Action, i: nat, j: nat)
    requires LinearInv(p, origin, s) && i < j < |s.threads|
    requires Do(p, s, a).threads[i].Timed? && Do(p, s, a).threads[j].Timed?
    ensures Do(p, s, a).threads[i].stamp != Do(p, s, a).threads[j].stamp
  {
    assert Placed(s, s.threads[i]) && Placed(s, s.threads[j]);
  }

  lemma ThreadsKept(p: Params, origin: int, s: State, a: Action)
    requires LinearInv(p, origin, s)
    ensures ThreadsInv(Do(p, s, a))
  {
    var s' := Do(p, s, a);
    forall i | 0 <= i < |s'.threads|
      ensures Placed(s', s'.threads[i])
    {
      PlacesKept(p, origin, s, a, i);
    }
    forall i, j | 0 <= i < j < |s'.threads| && s'.threads[i].Timed? && s'.threads[j].Timed?
      ensures s'.threads[i].stamp != s'.threads[j].stamp
    {
      StampsKept(p, origin, s, a, i, j);
    }
  }

  lemma BackedKept(p: Params, s: State, s': State, stamp: nat, r: Return)
    requires |s.published| == |s.commits| + 1 && |s'.published| == |s'.commits| + 1
    requires Backed(p, s, stamp, r)
    requires s.commits <= s'.commits && s.published <= s'.published && s.readings <= s'.readings
    ensures Backed(p, s', stamp, r)
  {
  }

  /** A call that returns now is backed by the commit it just made or the snapshot it decided on. */
  lemma ReturnIsBacked(p: Params, origin: int, s: State, a: Action, k: nat)
    requires LinearInv(p, origin, s) && |Do(p, s, a).published| == |Do(p, s, a).commits| + 1
    requires k in Do(p, s, a).finished && (k in s.finished ==> Do(p, s, a).finished[k] != s.finished[k])
    ensures Backed(p, Do(p, s, a), k, Do(p, s, a).finished[k])
  {
    var t := s.threads[a.tid];
    assert Placed(s, t) && Pinned(s, a.tid, t.ptr, t.version);
  }

  lemma HistoryGrows(p: Params, s: State, a: Action)
    requires |s.published| == |s.commits| + 1
    ensures var s' := Do(p, s, a);
      && s.commits <= s'.commits && s.published <= s'.published && s.readings <= s'.readings
      && |s'.published| == |s'.commits| + 1
  {
  }

  lemma CommitsHaveReturned(p: Params, origin: int, s: State, a: Action, i: nat)
    requires LinearInv(p, origin, s) && i < |Do(p, s, a).commits|
    ensures var s' := Do(p, s, a);
      s'.commits[i].stamp in s'.finished && s'.finished[s'.commits[i].stamp].ok
  {
    var s' := Do(p, s, a);
    if i < |s.commits| && s'.finished != s.finished {
      assert Placed(s, s.threads[a.tid]);
    }
  }

  lemma FinishedKept(p: Params, origin: int, s: State, a: Action)
    requires LinearInv(p, origin, s)
    ensures |Do(p, s, a).published| == |Do(p, s, a).commits| + 1 && FinishedInv(p, Do(p, s, a))
  {
    var s' := Do(p, s, a);
    HistoryGrows(p, s, a);
    forall k <- s'.finished
      ensures Backed(p, s', k, s'.finished[k])
    {
      if k in s.finished && s'.finished[k] == s.finished[k] {
        BackedKept(p, s, s', k, s.finished[k]);
      } else {
        ReturnIsBacked(p, origin, s, a, k);
      }
    }
    forall i | 0 <= i < |s'.commits|
      ensures s'.commits[i].stamp in s'.finished && s'.finished[s'.commits[i].stamp].ok
    {
      CommitsHaveReturned(p, origin, s, a, i);
    }
  }

  // ---------------------------------------------------------------- lost CASes

  function Versions(threads: seq<Thread>): seq<int> {
    seq(|threads|, i requires 0 <= i < |threads| => if Holding(threads[i]) then threads[i].version else -1)
  }

  ghost predicate PaidInv(s: State) {
    |s.threads| >= 1 ==> Paid(s.lost, Versions(s.threads), |s.commits|)
  }

  /** What a goroutine's step does to the versions held: only its own changes. It is let go of by a
      return or by a lost CAS on a stale pointer; a load takes the current one. */
  lemma VersionsMove(p: Params, s: State, a: Action)
    requires HeapInv(s) && !a.Tick? && !a.Collect? && a.tid < |s.threads|
    ensures var s' := Do(p, s, a);
      var held, held' := Versions(s.threads), Versions(s'.threads);
      && held' == held[a.tid := held'[a.tid]]
      && (if s'.commits != s.commits then
            |s'.commits| == |s.commits| + 1 && s'.lost == s.lost && held'[a.tid] == -1
          else
            && (held' == held || held'[a.tid] == -1 || held'[a.tid] == |s.commits|)
            && (s'.lost == s.lost
                || (s'.lost == s.lost + 1 && 0 <= held[a.tid] < |s.commits| && held'[a.tid] == -1)))
  {
    var s' := Do(p, s, a);
    var held, held' := Versions(s.threads), Versions(s'.threads);
    assert forall i :: 0 <= i < |s.threads| && i != a.tid ==> s'.threads[i] == s.threads[i];
    assert Holding(s.threads[a.tid]) ==> Pinned(s, a.tid, s.threads[a.tid].ptr, s.threads[a.tid].version);
  }

  lemma PaymentKept(p: Params, s: State, a: Action)
    requires HeapInv(s) && PaidInv(s)
    ensures PaidInv(Do(p, s, a))
  {
    var s' := Do(p, s, a);
    if !a.Tick? && !a.Collect? && a.tid < |s.threads| {
      VersionsMove(p, s, a);
      var held, held' := Versions(s.threads), Versions(s'.threads);
      if s'.commits != s.commits {
        CommitPays(s.lost, held, a.tid, |s.commits|);
      } else if held' != held || s'.lost != s.lost {
        MovePays(s.lost, s'.lost, held, a.tid, held'[a.tid], |s.commits|);
      }
    }
  }

  lemma {:induction false} NoneStale(threads: seq<Thread>)
    requires forall t <- threads :: t.Idle?
    ensures Stale(Versions(threads), 0) == 0
    decreases |threads|
  {
    if threads != [] {
      assert Versions(threads)[1..] == Versions(threads[1..]);
      NoneStale(threads[1..]);
    }
  }

  // ---------------------------------------------------------------- every reachable state

  ghost predicate Inv(p: Params, origin: int, s: State) {
    LinearInv(p, origin, s) && PaidInv(s)
  }

  lemma InvKept(p: Params, origin: int, s: State, a: Action)
    requires Inv(p, origin, s)
    ensures Inv(p, origin, Do(p, s, a))
  {
    HeapKept(p, s, a);
    ClockKept(p, origin, s, a);
    CommitsKept(p, origin, s, a);
    ThreadsKept(p, origin, s, a);
    FinishedKept(p, origin, s, a);
    PaymentKept(p, s, a);
  }

  lemma {:induction false} Reachable(p: Params, m: nat, origin: int, actions: seq<Action>)
    ensures Inv(p, origin, Exec(p, m, origin, actions))
    decreases |actions|
  {
    if actions == [] {
      NoneStale(Init(p, m, origin).threads);
    } else {
      Reachable(p, m, origin, actions[..|actions| - 1]);
      InvKept(p, origin, Exec(p, m, origin, actions[..|actions| - 1]), actions[|actions| - 1]);
    }
  }

  // ---------------------------------------------------------------- linearisation

  /** The calls that have returned, in the order of their last clock readings. */
  function Linear(finished: map<nat, Return>, k: nat): seq<Return> {
    if k == 0 then []
    else Linear(finished, k - 1) + if k - 1 in finished then [finished[k - 1]] else []
  }

  function Completed(s: State): seq<Return> {
    Linear(s.finished, |s.readings|)
  }

  function CallsOf(done: seq<Return>): seq<Call> {
    seq(|done|, i requires 0 <= i < |done| => done[i].call)
  }

  function OksOf(done: seq<Return>): seq<bool> {
    seq(|done|, i requires 0 <= i < |done| => done[i].ok)
  }

  /** A level older by one commit, brought forward to now, is at least the newer one's. */
  lemma OneCommitLess(p: Params, s: Level, c: Call, now: int)
    requires s.tokens <= p.capacity && s.last <= c.now <= now && c.n > 0 && NextLockFreeState(p, s, c.now, c.n).ok
    ensures Refill(p, NextLockFreeState(p, s, c.now, c.n).state, now) <= Refill(p, s, now)
  {
    RefillComposes(p, s, c.now, now);
  }

  /** A stale snapshot over-estimates: brought forward to the same instant, its level is at least
      that of any snapshot published later. */
  lemma {:induction false} StaleOverestimates(p: Params, origin: int, s: State, v: nat, j: nat, now: int)
    requires ClockInv(s, origin) && CommitsInv(p, origin, s)
    requires v <= j <= |s.commits| && origin <= now && forall i :: 0 <= i < j ==> s.commits[i].call.now <= now
    ensures s.published[j].last <= now && s.published[j].tokens <= p.capacity
    ensures Refill(p, s.published[j], now) <= Refill(p, s.published[v], now)
    decreases j - v
  {
    if j > 0 {
      assert Replaces(p, s, j - 1);
    }
    if v < j {
      StaleOverestimates(p, origin, s, v, j - 1, now);
      LastReadings(p, origin, s, j - 1);
      OneCommitLess(p, s.published[j - 1], s.commits[j - 1].call, now);
    }
  }

  /** A snapshot is never newer than the commit that replaces it. */
  lemma LastReadings(p: Params, origin: int, s: State, k: nat)
    requires ClockInv(s, origin) && CommitsInv(p, origin, s) && k < |s.commits|
    ensures s.published[k].last <= s.commits[k].call.now
  {
    assert Replaces(p, s, k);
    if k > 0 {
      assert Replaces(p, s, k - 1);
      assert s.commits[k - 1].stamp < s.commits[k].stamp;
    }
  }

  /** The first j commits are those stamped before k. */
  predicate Split(s: State, j: nat, k: nat) {
    j <= |s.commits| && forall i :: 0 <= i < |s.commits| ==> (s.commits[i].stamp < k <==> i < j)
  }

  /** What a sequential token bucket has done after the calls stamped before k: returned the same
      verdicts, and kept the credit of the j-th snapshot. */
  ghost predicate Follows(p: Params, origin: int, s: State, j: nat, k: nat) {
    var done := Linear(s.finished, k);
    var level := Final(Policy(p), Full(p, origin), CallsOf(done));
    && j < |s.published| && Split(s, j, k)
    && Verdicts(Policy(p), Full(p, origin), CallsOf(done)) == OksOf(done)
    && SameCredit(p, level, s.published[j], level.last)
    && (forall i :: k <= i < |s.readings| ==> level.last <= s.readings[i])
  }

  /** A sequential bucket with the credit of snapshot j grants the call that replaced it. */
  lemma GrantFollows(p: Params, level: Level, snapshot: Level, c: Call)
    requires SameCredit(p, level, snapshot, level.last) && level.last <= c.now
    requires c.n > 0 && NextLockFreeState(p, snapshot, c.now, c.n).ok
    ensures Step(p, level, c) == Outcome(NextLockFreeState(p, snapshot, c.now, c.n).state, true)
    ensures SameCredit(p, Step(p, level, c).state, NextLockFreeState(p, snapshot, c.now, c.n).state, c.now)
  {
    RefillComposes(p, snapshot, level.last, c.now);
    AccruedComposes(0, 0, p.rate);
    assert level == Level(Refill(p, snapshot, level.last), level.last);
  }

  /** It denies a call that was denied on a snapshot with at least that credit. */
  lemma DenialFollows(p: Params, level: Level, snapshot: Level, stale: Level, c: Call)
    requires SameCredit(p, level, snapshot, level.last) && level.last <= c.now
    requires c.n > 0 && !Covers(p, Refill(p, stale, c.now), c.n)
    requires Refill(p, snapshot, c.now) <= Refill(p, stale, c.now)
    ensures !Step(p, level, c).ok && SameCredit(p, Step(p, level, c).state, snapshot, c.now)
  {
    RefillComposes(p, snapshot, level.last, c.now);
    assert level == Level(Refill(p, snapshot, level.last), level.last);
  }

  /** One returned call: the sequential bucket makes the same decision on the state the machine's
      call would have seen had it been alone at its reading. */
  lemma CallFollows(p: Params, origin: int, s: State, level: Level, j: nat, k: nat)
    requires LinearInv(p, origin, s) && k < |s.readings| && k in s.finished
    requires j < |s.published| && Split(s, j, k)
    requires SameCredit(p, level, s.published[j], level.last) && level.last <= s.readings[k]
    ensures var r := s.finished[k];
      var o, j' := Step(p, level, r.call), if r.ok then j + 1 else j;
      && o.ok == r.ok && j' < |s.published| && Split(s, j', k + 1)
      && SameCredit(p, o.state, s.published[j'], s.readings[k])
  {
    var r := s.finished[k];
    assert Backed(p, s, k, r);
    if r.ok {
      assert r.version > 0 ==> s.commits[r.version - 1].stamp < k;
      assert r.version == j;
      assert Replaces(p, s, j);
      GrantFollows(p, level, s.published[j], r.call);
    } else {
      forall i | 0 <= i < j
        ensures s.commits[i].call.now <= r.call.now
      {
        assert Replaces(p, s, i) && s.commits[i].stamp < k;
      }
      assert r.version > 0 ==> s.commits[r.version - 1].stamp < k;
      StaleOverestimates(p, origin, s, r.version, j, r.call.now);
      DenialFollows(p, level, s.published[j], s.published[r.version], r.call);
      NotItsStamp(p, s, k);
    }
  }

  /** A stamp whose call did not return a grant is no commit's. */
  lemma NotItsStamp(p: Params, s: State, k: nat)
    requires |s.published| == |s.commits| + 1 && FinishedInv(p, s)
    requires k !in s.finished || !s.finished[k].ok
    ensures forall i :: 0 <= i < |s.commits| ==> s.commits[i].stamp != k
  {
  }

  lemma FollowsCall(p: Params, origin: int, s: State, j: nat, k: nat)
    requires LinearInv(p, origin, s) && k < |s.readings| && k in s.finished
    requires Follows(p, origin, s, j, k)
    ensures Follows(p, origin, s, if s.finished[k].ok then j + 1 else j, k + 1)
  {
    var before, r := Linear(s.finished, k), s.finished[k];
    CallFollows(p, origin, s, Final(Policy(p), Full(p, origin), CallsOf(before)), j, k);
    assert CallsOf(before + [r]) == CallsOf(before) + [r.call];
    assert OksOf(before + [r]) == OksOf(before) + [r.ok];
    RunSnoc(Policy(p), Full(p, origin), CallsOf(before), r.call);
  }

  lemma FollowsGap(p: Params, origin: int, s: State, j: nat, k: nat)
    requires LinearInv(p, origin, s) && k < |s.readings| && k !in s.finished
    requires Follows(p, origin, s, j, k)
    ensures Follows(p, origin, s, j, k + 1)
  {
    assert Linear(s.finished, k) + [] == Linear(s.finished, k);
    NotItsStamp(p, s, k);
  }

  lemma {:induction false} SequentialFollows(p: Params, origin: int, s: State, k: nat) returns (j: nat)
    requires LinearInv(p, origin, s) && k <= |s.readings|
    ensures Follows(p, origin, s, j, k)
    decreases k
  {
    if k == 0 {
      j := 0;
      AccruedComposes(0, 0, p.rate);
    } else {
      j := SequentialFollows(p, origin, s, k - 1);
      if k - 1 in s.finished {
        FollowsCall(p, origin, s, j, k - 1);
        j := if s.finished[k - 1].ok then j + 1 else j;
      } else {
        FollowsGap(p, origin, s, j, k - 1);
      }
    }
  }

  /** Linearisability: for any goroutines and any interleaving, over a clock that never runs back
      and at any rate, the calls that have returned, in the order of their last clock readings,
      are a legal run of the sequential token bucket: same readings, same verdicts. That includes
      denials decided on stale snapshots. */
  lemma Linearizable(p: Params, m: nat, origin: int, actions: seq<Action>)
    ensures var done := Completed(Exec(p, m, origin, actions));
      Verdicts(Policy(p), Full(p, origin), CallsOf(done)) == OksOf(done)
  {
    var s := Exec(p, m, origin, actions);
    Reachable(p, m, origin, actions);
    var j := SequentialFollows(p, origin, s, |s.readings|);
  }

  /** So in that order every returned call got the verdict that the rule of the token bucket asks for,
      given the grants before it. */
  lemma ReturnsObeyTheRule(p: Params, m: nat, origin: int, actions: seq<Action>)
    ensures var done := Completed(Exec(p, m, origin, actions));
      Obeys(TokenRule(p, origin), CallsOf(done), OksOf(done))
  {
    var done := Completed(Exec(p, m, origin, actions));
    Linearizable(p, m, origin, actions);
    VerdictsAreExact(p, origin, CallsOf(done), OksOf(done));
  }

  /** The order of that run respects real time: each call's last reading was taken while it ran, so
      a call that returned before another began comes first. The readings never decrease along
      the run, and no returned call is missing from it. */
  lemma LinearOrderIsRealTime(p: Params, m: nat, origin: int, actions: seq<Action>)
    ensures var s := Exec(p, m, origin, actions);
      && Ordered(CallsOf(Completed(s)), origin)
      && (forall k <- s.finished :: s.finished[k] in Completed(s) && s.finished[k].begun <= k < s.finished[k].returned)
      && (forall a, b :: a in s.finished && b in s.finished && s.finished[a].returned <= s.finished[b].begun ==> a < b)
  {
    var s := Exec(p, m, origin, actions);
    Reachable(p, m, origin, actions);
    LinearIsOrdered(p, origin, s, |s.readings|);
    forall k <- s.finished
      ensures s.finished[k] in Completed(s) && s.finished[k].begun <= k < s.finished[k].returned
    {
      assert Backed(p, s, k, s.finished[k]);
      LinearHas(s.finished, k, |s.readings|);
    }
  }

  lemma {:induction false} LinearHas(finished: map<nat, Return>, i: nat, k: nat)
    requires i < k && i in finished
    ensures finished[i] in Linear(finished, k)
    decreases k
  {
    if i < k - 1 {
      LinearHas(finished, i, k - 1);
    }
  }

  lemma {:induction false} LinearIsOrdered(p: Params, origin: int, s: State, k: nat)
    requires LinearInv(p, origin, s) && k <= |s.readings|
    ensures var calls := CallsOf(Linear(s.finished, k));
      && Ordered(calls, origin)
      && (forall i :: k <= i < |s.readings| ==> LastReading(calls, origin) <= s.readings[i])
    decreases k
  {
    if k > 0 {
      LinearIsOrdered(p, origin, s, k - 1);
      var before := Linear(s.finished, k - 1);
      if k - 1 in s.finished {
        var r := s.finished[k - 1];
        assert Backed(p, s, k - 1, r);
        assert CallsOf(before + [r]) == CallsOf(before) + [r.call];
        OrderedSnoc(CallsOf(before), r.call, origin);
      } else {
        assert before + [] == before;
      }
    }
  }

  /** Nor do they over-admit: the returned grants of any interleaving keep the lifetime bound. */
  lemma GrantsAreBounded(p: Params, m: nat, origin: int, actions: seq<Action>)
    requires p.eps >= 0.0
    ensures var done := Completed(Exec(p, m, origin, actions));
      var granted := Granted(CallsOf(done), OksOf(done));
      Units(granted) as real
      <= Max(0.0, Allowance(p, p.capacity, LastReading(CallsOf(done), origin) - origin, LargestBatch(granted, 0)))
  {
    Linearizable(p, m, origin, actions);
    LinearOrderIsRealTime(p, m, origin, actions);
    LifetimeBound(p, origin, CallsOf(Completed(Exec(p, m, origin, actions))));
  }

  /** No ABA, although the collector may hand a freed address to a later snapshot: a goroutine's CAS
      finds the pointer it loaded exactly when nobody has committed since; whoever did commit was
      another goroutine; and the snapshot it decides on is the one it loaded. So its next step
      returns false on a denying snapshot, and otherwise publishes and returns true if undisturbed,
      or else loses the CAS and goes round again with the same batch. Its return is filed under its
      own last reading, and overwrites none. */
  lemma CasDetectsEveryCommit(p: Params, m: nat, origin: int, actions: seq<Action>, tid: nat, addr: Addr)
    requires tid < m && Exec(p, m, origin, actions).threads[tid].Timed?
    requires addr !in Exec(p, m, origin, actions).heap
    ensures var s := Exec(p, m, origin, actions);
      var t, s' := s.threads[tid], Do(p, s, Resolve(tid, addr));
      && t.version <= |s.commits| && |s.published| == |s.commits| + 1
      && (t.ptr == s.head <==> t.version == |s.commits|)
      && (forall k :: t.version <= k < |s.commits| ==> s.commits[k].tid != tid)
      && t.stamp !in s.finished
      && (var ok := Covers(p, Refill(p, s.published[t.version], t.now), t.n);
          if ok && t.version < |s.commits| then
            s' == s.(threads := s.threads[tid := Entered(t.n, t.begun)], lost := s.lost + 1)
          else
            && s'.threads == s.threads[tid := Idle] && s'.lost == s.lost
            && s'.finished == s.finished[t.stamp := Return(Call(t.n, t.now), ok, t.version, t.begun, |s.readings|)]
            && |s'.commits| == |s.commits| + if ok then 1 else 0)
  {
    Reachable(p, m, origin, actions);
    var s := Exec(p, m, origin, actions);
    assert Pinned(s, tid, s.threads[tid].ptr, s.threads[tid].version);
  }

  /** Because a goroutine reads the clock after it loads, its reading is never before that of the
      snapshot it holds: the elapsed time it refills for is never negative. */
  lemma ElapsedIsNeverNegative(p: Params, m: nat, origin: int, actions: seq<Action>, tid: nat)
    requires tid < m && Exec(p, m, origin, actions).threads[tid].Timed?
    ensures var s := Exec(p, m, origin, actions);
      var t := s.threads[tid];
      && t.version < |s.published| && t.ptr in s.heap
      && s.heap[t.ptr] == s.published[t.version] && s.published[t.version].last <= t.now <= s.clock
  {
    var s := Exec(p, m, origin, actions);
    var t := s.threads[tid];
    Reachable(p, m, origin, actions);
    assert Pinned(s, tid, t.ptr, t.version) && Placed(s, t);
    if t.version > 0 {
      assert Replaces(p, s, t.version - 1);
    }
  }

  /** A call with nothing in between its actions. */
  function Alone(p: Params, s: State, tid: nat, n: int, addr: Addr): State {
    Do(p, Do(p, Do(p, Do(p, s, Enter(tid, n)), Load(tid)), ReadClock(tid)), Resolve(tid, addr))
  }

  /** Before it, time may pass, and an address that nothing refers to may be collected. */
  function Ready(p: Params, s: State, d: nat, addr: Addr): State {
    Do(p, Do(p, s, Tick(d)), Collect(addr))
  }

  predicate HeadIsPublished(s: State) {
    |s.published| == |s.commits| + 1 && s.head in s.heap && s.heap[s.head] == s.published[|s.commits|]
  }

  /** The call has published and returned what the sequential step does on the published snapshot at
      the reading of the shared clock. */
  predicate ReturnedSolo(p: Params, s: State, s': State, n: int, addr: Addr) {
    HeadIsPublished(s) && HeadIsPublished(s') &&
    var c := Call(n, s.clock);
    var o := SoloStep(p, s.published[|s.commits|], c);
    && s'.heap[s'.head] == o.state && (o.ok ==> s'.head == addr)
    && s'.threads == s.threads && s'.readings == s.readings + [c.now]
    && |s.readings| in s'.finished && s'.finished[|s.readings|].call == c && s'.finished[|s.readings|].ok == o.ok
  }

  lemma AloneIsSolo(p: Params, s: State, tid: nat, n: int, addr: Addr)
    requires HeadIsPublished(s) && tid < |s.threads| && s.threads[tid].Idle? && n > 0 && addr !in s.heap
    ensures ReturnedSolo(p, s, Alone(p, s, tid, n, addr), n, addr)
  {
  }

  lemma ReachableHead(p: Params, m: nat, origin: int, actions: seq<Action>)
    ensures HeadIsPublished(Exec(p, m, origin, actions))
  {
    Reachable(p, m, origin, actions);
  }

  /** Without interference a call is the sequential step, whatever time has passed; and it may publish
      at an address that another snapshot had, once nothing refers to that one. */
  lemma UncontendedCall(p: Params, m: nat, origin: int, actions: seq<Action>, tid: nat, n: int, d: nat, addr: Addr)
    requires tid < m && n > 0 && Exec(p, m, origin, actions).threads[tid].Idle?
    requires !Live(Exec(p, m, origin, actions), addr)
    ensures var s := Exec(p, m, origin, actions);
      var ready := Ready(p, s, d, addr);
      && ready == s.(clock := s.clock + d, heap := s.heap - {addr})
      && ReturnedSolo(p, ready, Alone(p, ready, tid, n, addr), n, addr)
  {
    var s := Exec(p, m, origin, actions);
    ReachableHead(p, m, origin, actions);
    assert s.head != addr;
    AloneIsSolo(p, Ready(p, s, d, addr), tid, n, addr);
  }

  /** Lock-freedom by counting: with m goroutines, at most m - 1 CASes are lost per commit. */
  lemma LostCasesArePaidFor(p: Params, m: nat, origin: int, actions: seq<Action>)
    requires m >= 1
    ensures var s := Exec(p, m, origin, actions); s.lost <= (m - 1) * |s.commits|
  {
    var s := Exec(p, m, origin, actions);
    Reachable(p, m, origin, actions);
    LostAtMost(s.lost, Versions(s.threads), |s.commits|);
  }

  /** With the clock stopped at any instant, of k calls of Allow that have returned, exactly
      min(k, capacity) were granted, whatever the interleaving. */
  lemma FrozenExactness(p: Params, m: nat, origin: int, actions: seq<Action>, capacity: nat, now: int)
    requires p.rate >= 0.0 && 0.0 <= p.eps < 1.0 && p.capacity == capacity as real
    requires Frozen(CallsOf(Completed(Exec(p, m, origin, actions))), now)
    ensures var done := Completed(Exec(p, m, origin, actions));
      CountTrue(OksOf(done)) == if |done| <= capacity then |done| else capacity
  {
    var calls := CallsOf(Completed(Exec(p, m, origin, actions)));
    Linearizable(p, m, origin, actions);
    LinearOrderIsRealTime(p, m, origin, actions);
    if calls != [] {
      assert calls[0] == Call(1, now) && Readable(origin, calls[0]);
      AccruedComposes(0, now - origin, p.rate);
      FrozenClock(p, Full(p, origin), capacity, now, calls);
    }
  }
}
