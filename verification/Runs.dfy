/** Runs of a rate-limiting policy. A policy maps a state and a call to the next state and the
    verdict; a run folds it over a sequence of calls, each carrying its own clock reading. */
module Runs {

  /** One AllowN(n) call together with the clock reading it made (unread when n <= 0). */
  datatype Call = Call(n: int, now: int)

  datatype Outcome<+S> = Outcome(state: S, ok: bool)

  /** The clock contract for one call: its reading, if it makes one, is not before t. */
  predicate Readable(t: int, c: Call) {
    c.n <= 0 || t <= c.now
  }

  function After(t: int, c: Call): int {
    if c.n <= 0 then t else c.now
  }

  /** The clock contract for a run: readings never decrease, starting from t. */
  predicate Ordered(calls: seq<Call>, t: int) {
    calls == [] || (Readable(t, calls[0]) && Ordered(calls[1..], After(t, calls[0])))
  }

  function LastReading(calls: seq<Call>, t: int): int {
    if calls == [] then t else LastReading(calls[1..], After(t, calls[0]))
  }

  function Final<S>(policy: (S, Call) -> Outcome<S>, s: S, calls: seq<Call>): S {
    if calls == [] then s else Final(policy, policy(s, calls[0]).state, calls[1..])
  }

  function Verdicts<S>(policy: (S, Call) -> Outcome<S>, s: S, calls: seq<Call>): (oks: seq<bool>)
    ensures |oks| == |calls|
  {
    if calls == [] then [] else
    var o := policy(s, calls[0]);
    [o.ok] + Verdicts(policy, o.state, calls[1..])
  }

  /** The calls that were granted, in order. */
  function Granted(calls: seq<Call>, oks: seq<bool>): seq<Call>
    requires |calls| == |oks|
  {
    if calls == [] then [] else
    (if oks[0] then [calls[0]] else []) + Granted(calls[1..], oks[1..])
  }

  /** The calls a run grants. */
  function GrantedBy<S>(policy: (S, Call) -> Outcome<S>, s: S, calls: seq<Call>): seq<Call> {
    Granted(calls, Verdicts(policy, s, calls))
  }

  /** Total units asked for; a batch of n <= 0 asks for nothing. */
  function Units(calls: seq<Call>): nat {
    if calls == [] then 0 else (if calls[0].n > 0 then calls[0].n else 0) + Units(calls[1..])
  }

  /** The largest batch, at least m. */
  function LargestBatch(calls: seq<Call>, m: nat): nat {
    if calls == [] then m else LargestBatch(calls[1..], if calls[0].n > m then calls[0].n else m)
  }

  function CountTrue(oks: seq<bool>): nat {
    if oks == [] then 0 else (if oks[0] then 1 else 0) + CountTrue(oks[1..])
  }

  /** Every call is Allow() at one and the same reading: the clock stands still. */
  predicate Frozen(calls: seq<Call>, t: int) {
    forall i :: 0 <= i < |calls| ==> calls[i] == Call(1, t)
  }

  lemma {:induction false} FrozenIsOrdered(calls: seq<Call>, now: int, t: int)
    requires Frozen(calls, now) && t <= now
    ensures Ordered(calls, t)
    decreases |calls|
  {
    if calls != [] {
      assert calls[0] == Call(1, now);
      assert forall i :: 0 <= i < |calls[1..]| ==> calls[1..][i] == calls[i + 1];
      FrozenIsOrdered(calls[1..], now, now);
    }
  }

  /** All calls are made at one reading, with batches of any size. */
  predicate AtInstant(calls: seq<Call>, t: int) {
    forall i :: 0 <= i < |calls| ==> calls[i].now == t
  }

  lemma {:induction false} InstantIsOrdered(calls: seq<Call>, t: int)
    requires AtInstant(calls, t)
    ensures Ordered(calls, t) && LastReading(calls, t) == t
    decreases |calls|
  {
    if calls != [] {
      assert calls[0].now == t;
      assert forall i :: 0 <= i < |calls[1..]| ==> calls[1..][i] == calls[i + 1];
      InstantIsOrdered(calls[1..], t);
    }
  }

  /** One more call at the end of a run. */
  lemma {:induction false} RunSnoc<S>(policy: (S, Call) -> Outcome<S>, s: S, calls: seq<Call>, c: Call)
    ensures Final(policy, s, calls + [c]) == policy(Final(policy, s, calls), c).state
    ensures Verdicts(policy, s, calls + [c]) == Verdicts(policy, s, calls) + [policy(Final(policy, s, calls), c).ok]
    decreases |calls|
  {
    if calls == [] {
      assert calls + [c] == [c];
    } else {
      assert (calls + [c])[1..] == calls[1..] + [c];
      RunSnoc(policy, policy(s, calls[0]).state, calls[1..], c);
    }
  }

  lemma {:induction false} OrderedSnoc(calls: seq<Call>, c: Call, t: int)
    requires Ordered(calls, t) && Readable(LastReading(calls, t), c)
    ensures Ordered(calls + [c], t) && LastReading(calls + [c], t) == After(LastReading(calls, t), c)
    decreases |calls|
  {
    if calls == [] {
      assert calls + [c] == [c];
    } else {
      assert (calls + [c])[1..] == calls[1..] + [c];
      OrderedSnoc(calls[1..], c, After(t, calls[0]));
    }
  }

  lemma {:induction false} OrderedFront(calls: seq<Call>, c: Call, t: int)
    requires Ordered(calls + [c], t)
    ensures Ordered(calls, t) && Readable(LastReading(calls, t), c)
    ensures LastReading(calls + [c], t) == After(LastReading(calls, t), c)
    decreases |calls|
  {
    if calls == [] {
      assert calls + [c] == [c];
    } else {
      assert (calls + [c])[1..] == calls[1..] + [c];
      OrderedFront(calls[1..], c, After(t, calls[0]));
    }
  }

  /** What a run has done after its first i calls, and what it says to the next. */
  lemma {:induction false} RunPrefix<S>(f: (S, Call) -> Outcome<S>, s: S, calls: seq<Call>, i: nat)
    requires i < |calls|
    ensures Verdicts(f, s, calls)[..i] == Verdicts(f, s, calls[..i])
    ensures Verdicts(f, s, calls)[i] == f(Final(f, s, calls[..i]), calls[i]).ok
    decreases i
  {
    if i > 0 {
      var t := f(s, calls[0]).state;
      RunPrefix(f, t, calls[1..], i - 1);
      assert calls[..i][1..] == calls[1..][..i - 1];
      var rest := Verdicts(f, t, calls[1..]);
      assert Verdicts(f, s, calls)[..i] == [f(s, calls[0]).ok] + rest[..i - 1];
    }
  }

  lemma {:induction false} OrderedPrefix(calls: seq<Call>, i: nat, t: int)
    requires i < |calls| && Ordered(calls, t)
    ensures Ordered(calls[..i], t) && Readable(LastReading(calls[..i], t), calls[i])
    decreases i
  {
    if i > 0 {
      OrderedPrefix(calls[1..], i - 1, After(t, calls[0]));
      assert calls[..i][1..] == calls[1..][..i - 1];
    }
  }

  /** A rule says which calls are to be granted, given the calls before and what was said to them. */
  type Rule = (seq<Call>, seq<bool>, Call) -> bool

  /** Every verdict is the one the rule asks for. */
  predicate Obeys(rule: Rule, calls: seq<Call>, oks: seq<bool>)
    requires |oks| == |calls|
  {
    forall i :: 0 <= i < |calls| ==> oks[i] == rule(calls[..i], oks[..i], calls[i])
  }

  /** If a limiter takes the decision of the rule after every prefix of a run, its verdicts obey the
      rule, and no others do. */
  lemma {:induction false} OnlyVerdictsObey<S>(f: (S, Call) -> Outcome<S>, s: S, rule: Rule, calls: seq<Call>,
                                               oks: seq<bool>)
    requires |oks| == |calls|
    requires forall i :: 0 <= i < |calls| ==>
               f(Final(f, s, calls[..i]), calls[i]).ok == rule(calls[..i], Verdicts(f, s, calls[..i]), calls[i])
    ensures oks == Verdicts(f, s, calls) <==> Obeys(rule, calls, oks)
  {
    var said := Verdicts(f, s, calls);
    forall i | 0 <= i < |calls|
      ensures said[i] == rule(calls[..i], said[..i], calls[i])
    {
      RunPrefix(f, s, calls, i);
    }
    if Obeys(rule, calls, oks) {
      SameSoFar(rule, calls, oks, said, |calls|);
    }
  }

  lemma {:induction false} SameSoFar(rule: Rule, calls: seq<Call>, oks: seq<bool>, said: seq<bool>, i: nat)
    requires |oks| == |said| == |calls| && Obeys(rule, calls, oks) && Obeys(rule, calls, said) && i <= |calls|
    ensures oks[..i] == said[..i]
    decreases i
  {
    if i > 0 {
      SameSoFar(rule, calls, oks, said, i - 1);
      assert oks[..i] == oks[..i - 1] + [oks[i - 1]] && said[..i] == said[..i - 1] + [said[i - 1]];
    }
  }

  lemma {:induction false} CountTrueSnoc(oks: seq<bool>, ok: bool)
    ensures CountTrue(oks + [ok]) == CountTrue(oks) + (if ok then 1 else 0)
    decreases |oks|
  {
    if oks == [] {
      assert oks + [ok] == [ok];
    } else {
      assert (oks + [ok])[1..] == oks[1..] + [ok];
      CountTrueSnoc(oks[1..], ok);
    }
  }

  lemma {:induction false} CountTrueAtMost(oks: seq<bool>)
    ensures CountTrue(oks) <= |oks|
    ensures CountTrue(oks) == |oks| <==> false !in oks
    decreases |oks|
  {
    if oks != [] {
      CountTrueAtMost(oks[1..]);
      assert oks == [oks[0]] + oks[1..];
    }
  }

  /** rel relates two policies step by step: called at readings that do not run backwards they
      give the same verdict and stay related. */
  ghost predicate Simulates<S(!new), R(!new)>(f: (S, Call) -> Outcome<S>, g: (R, Call) -> Outcome<R>,
                                             rel: (S, R, int) -> bool)
  {
    forall s, r, t, c :: rel(s, r, t) && Readable(t, c) ==>
      f(s, c).ok == g(r, c).ok && rel(f(s, c).state, g(r, c).state, After(t, c))
  }

  /** Related policies give the same verdicts on every ordered run, and end up related. */
  lemma {:induction false} SameVerdicts<S(!new), R(!new)>(f: (S, Call) -> Outcome<S>, g: (R, Call) -> Outcome<R>,
                                                         rel: (S, R, int) -> bool, s: S, r: R, t: int, calls: seq<Call>)
    requires Simulates(f, g, rel)
    requires rel(s, r, t) && Ordered(calls, t)
    ensures Verdicts(f, s, calls) == Verdicts(g, r, calls)
    ensures rel(Final(f, s, calls), Final(g, r, calls), LastReading(calls, t))
    decreases |calls|
  {
    if calls != [] {
      var c := calls[0];
      assert f(s, c).ok == g(r, c).ok && rel(f(s, c).state, g(r, c).state, After(t, c));
      SameVerdicts(f, g, rel, f(s, c).state, g(r, c).state, After(t, c), calls[1..]);
    }
  }

  /** rel relates a state to one that has missed some denied calls. */
  ghost predicate AbsorbsDenials<S(!new)>(f: (S, Call) -> Outcome<S>, rel: (S, S, int) -> bool) {
    forall s, r, t, c :: rel(s, r, t) && Readable(t, c) ==>
      f(s, c).ok == f(r, c).ok && rel(f(s, c).state, if f(s, c).ok then f(r, c).state else r, After(t, c))
  }

  /** Denied calls are invisible: after deleting them, every remaining call is still granted,
      and the two final states are still related (so every later call agrees as well). */
  lemma {:induction false} DenialsInvisible<S(!new)>(f: (S, Call) -> Outcome<S>, rel: (S, S, int) -> bool,
                                                    s: S, r: S, t: int, calls: seq<Call>)
    requires AbsorbsDenials(f, rel)
    requires rel(s, r, t) && Ordered(calls, t)
    ensures var kept := GrantedBy(f, s, calls);
      && false !in Verdicts(f, r, kept)
      && rel(Final(f, s, calls), Final(f, r, kept), LastReading(calls, t))
    decreases |calls|
  {
    if calls != [] {
      var c := calls[0];
      var o := f(s, c);
      var r' := if o.ok then f(r, c).state else r;
      assert o.ok == f(r, c).ok && rel(o.state, r', After(t, c));
      DenialsInvisible(f, rel, o.state, r', After(t, c), calls[1..]);
      var rest := GrantedBy(f, o.state, calls[1..]);
      assert Verdicts(f, s, calls)[1..] == Verdicts(f, o.state, calls[1..]);
      assert GrantedBy(f, s, calls) == (if o.ok then [c] else []) + rest;
      if o.ok {
        assert ([c] + rest)[1..] == rest;
      } else {
        assert [] + rest == rest;
      }
    }
  }

  /** Units and largest batch of the calls a run grants, one call at a time. */
  lemma GrantedCons<S>(f: (S, Call) -> Outcome<S>, s: S, calls: seq<Call>, m: nat)
    requires calls != []
    ensures var c, o := calls[0], f(s, calls[0]);
      && Units(GrantedBy(f, s, calls))
         == (if o.ok && c.n > 0 then c.n else 0) + Units(GrantedBy(f, o.state, calls[1..]))
      && LargestBatch(GrantedBy(f, s, calls), m)
         == LargestBatch(GrantedBy(f, o.state, calls[1..]), if o.ok && c.n > m then c.n else m)
  {
    var o := f(s, calls[0]);
    var rest := GrantedBy(f, o.state, calls[1..]);
    assert Verdicts(f, s, calls)[1..] == Verdicts(f, o.state, calls[1..]);
    assert ([calls[0]] + rest)[1..] == rest;
    assert [] + rest == rest;
  }

  /** When a denial writes no state, deleting denied calls changes nothing at all, whatever the
      readings. */
  lemma {:induction false} DenialsWithoutWrites<S(!new)>(f: (S, Call) -> Outcome<S>, s: S, calls: seq<Call>)
    requires forall s, c :: !f(s, c).ok ==> f(s, c).state == s
    ensures var kept := GrantedBy(f, s, calls);
      && false !in Verdicts(f, s, kept)
      && Final(f, s, kept) == Final(f, s, calls)
    decreases |calls|
  {
    if calls != [] {
      var o := f(s, calls[0]);
      DenialsWithoutWrites(f, o.state, calls[1..]);
      var rest := GrantedBy(f, o.state, calls[1..]);
      assert Verdicts(f, s, calls)[1..] == Verdicts(f, o.state, calls[1..]);
      assert ([calls[0]] + rest)[1..] == rest;
      assert [] + rest == rest;
    }
  }
}
