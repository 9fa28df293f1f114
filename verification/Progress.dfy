/** Counting for the CAS loops: how many threads hold a value loaded before the latest commit. A
    lost CAS uses up one such thread, and a commit can make no more than the other threads stale. */
module Progress {

  /** held[i] is the number of commits thread i had seen when it loaded, or -1 if it holds nothing. */
  function Stale(held: seq<int>, commits: int): nat {
    if held == [] then 0 else (if 0 <= held[0] < commits then 1 else 0) + Stale(held[1..], commits)
  }

  lemma {:induction false} StaleUpdate(held: seq<int>, i: nat, x: int, commits: int)
    requires i < |held|
    ensures Stale(held[i := x], commits) + (if 0 <= held[i] < commits then 1 else 0)
         == Stale(held, commits) + (if 0 <= x < commits then 1 else 0)
    decreases |held|
  {
    if i == 0 {
      assert held[0 := x][1..] == held[1..];
    } else {
      assert held[i := x][1..] == held[1..][i - 1 := x];
      StaleUpdate(held[1..], i - 1, x, commits);
    }
  }

  lemma {:induction false} StaleAtMostAll(held: seq<int>, commits: int)
    ensures Stale(held, commits) <= |held|
    decreases |held|
  {
    if held != [] {
      StaleAtMostAll(held[1..], commits);
    }
  }

  /** A thread that holds nothing is not stale. */
  lemma {:induction false} StaleAtMostOthers(held: seq<int>, i: nat, commits: int)
    requires i < |held| && held[i] == -1
    ensures Stale(held, commits) <= |held| - 1
    decreases |held|
  {
    if i == 0 {
      StaleAtMostAll(held[1..], commits);
    } else {
      StaleAtMostOthers(held[1..], i - 1, commits);
    }
  }

  /** The bound the CAS loops keep: every lost CAS is paid for by another thread's commit. */
  predicate Paid(lost: nat, held: seq<int>, commits: nat) {
    |held| >= 1 && lost + Stale(held, commits) <= (|held| - 1) * commits
  }

  lemma LostAtMost(lost: nat, held: seq<int>, commits: nat)
    requires Paid(lost, held, commits)
    ensures lost <= (|held| - 1) * commits
  {
  }

  /** Thread i commits and lets go of its value. */
  lemma CommitPays(lost: nat, held: seq<int>, i: nat, commits: nat)
    requires Paid(lost, held, commits) && i < |held|
    ensures Paid(lost, held[i := -1], commits + 1)
  {
    StaleAtMostOthers(held[i := -1], i, commits + 1);
    assert (|held| - 1) * (commits + 1) == (|held| - 1) * commits + (|held| - 1);
  }

  /** Thread i lets go of a value, losing a CAS only if the value was stale; or it loads. */
  lemma MovePays(lost: nat, lost': nat, held: seq<int>, i: nat, x: int, commits: nat)
    requires Paid(lost, held, commits) && i < |held|
    requires x == -1 || x == commits
    requires lost' == lost || (lost' == lost + 1 && 0 <= held[i] < commits)
    ensures Paid(lost', held[i := x], commits)
  {
    StaleUpdate(held, i, x, commits);
  }
}
