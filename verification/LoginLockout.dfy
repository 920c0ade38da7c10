/**
 Login lockout: a count of failures and the time of the last one per email, looked at before the
 password is checked and written after, and pruned in the background. The two lock sections of an
 attempt are separate steps, so cleanups and other attempts may fall between them. Times are
 milliseconds of a clock that never goes back.
 */
module LoginLockout {
  import opened Folds

  const MAX_ATTEMPTS: nat := 5
  const LOCKOUT_SECS: nat := 900

  type Email = string

  datatype Entry = Entry(count: nat, last: nat)

  type Attempts = map<Email, Entry>

  /** Whole seconds from `since` to `now`, compared with the lockout. */
  predicate Recent(since: nat, now: nat) {
    now < since || (now - since) / 1000 < LOCKOUT_SECS
  }

  /** Recent means less than 900 seconds ago. */
  lemma RecentIff(since: nat, now: nat)
    ensures Recent(since, now) <==> now < since + 900_000
  {
  }

  predicate Locked(m: Attempts, e: Email, now: nat) {
    e in m && m[e].count >= MAX_ATTEMPTS && Recent(m[e].last, now)
  }

  function Failed(m: Attempts, e: Email, now: nat): Attempts {
    m[e := Entry((if e in m then m[e].count else 0) + 1, now)]
  }

  function Settled(m: Attempts, e: Email, now: nat, valid: bool): Attempts {
    if valid then m - {e} else Failed(m, e, now)
  }

  function Pruned(m: Attempts, now: nat): Attempts {
    map e | e in m && Recent(m[e].last, now) :: m[e]
  }

  datatype Outcome = Refused | Success | Failure

  class LoginAttempts {
    var attempts: Attempts

    method CheckLoginLockout(e: Email, now: nat) returns (refused: bool)
      ensures refused == Locked(attempts, e, now)
    {
      refused := false;
      if e in attempts && attempts[e].count >= MAX_ATTEMPTS {
        if Recent(attempts[e].last, now) {
          refused := true;
        }
      }
    }

    method Settle(e: Email, now: nat, valid: bool)
      modifies this
      ensures attempts == Settled(old(attempts), e, now, valid)
    {
      if valid {
        attempts := attempts - {e};
      } else {
        var entry := if e in attempts then attempts[e] else Entry(0, now);
        entry := entry.(count := entry.count + 1);
        entry := entry.(last := now);
        attempts := attempts[e := entry];
      }
    }

    /** An attempt nobody interrupts; the password check ends at `done` with verdict `valid`. */
    method Login(e: Email, now: nat, done: nat, valid: bool) returns (r: Outcome)
      modifies this
      ensures r == if Locked(old(attempts), e, now) then Refused else if valid then Success else Failure
      ensures attempts == if r == Refused then old(attempts) else Settled(old(attempts), e, done, valid)
    {
      var refused := CheckLoginLockout(e, now);
      if refused {
        return Refused;
      }
      Settle(e, done, valid);
      r := if valid then Success else Failure;
    }

    method Cleanup(now: nat)
      modifies this
      ensures attempts == Pruned(old(attempts), now)
    {
      var kept := attempts;
      var todo := attempts.Keys;
      while todo != {}
        invariant todo <= attempts.Keys && attempts == old(attempts)
        invariant kept == map e | e in attempts && (e in todo || Recent(attempts[e].last, now)) :: attempts[e]
        decreases |todo|
      {
        var e :| e in todo;
        todo := todo - {e};
        if !Recent(attempts[e].last, now) {
          kept := kept - {e};
        }
      }
      attempts := kept;
    }
  }

  // ----- interleaved runs -----

  /** One lock section, at its time. */
  datatype Event =
    | Check(email: Email, now: nat)
    | Settle(email: Email, now: nat, valid: bool)
    | Cleanup(now: nat)

  type Trace = seq<Event>

  /** The table, and the attempts that passed the check and have not settled. */
  datatype Sys = Sys(attempts: Attempts, flying: multiset<Email>)

  /** Only an attempt that passed the check settles. */
  function Step(s: Sys, ev: Event): Sys {
    match ev
    case Check(e, now) => if Locked(s.attempts, e, now) then s else s.(flying := s.flying + multiset{e})
    case Settle(e, now, valid) =>
      if e in s.flying then Sys(Settled(s.attempts, e, now, valid), s.flying - multiset{e}) else s
    case Cleanup(now) => s.(attempts := Pruned(s.attempts, now))
  }

  function Run(t: Trace): Sys {
    if t == [] then Sys(map[], multiset{}) else Step(Run(t[..|t| - 1]), t[|t| - 1])
  }

  function Clock(t: Trace): nat {
    if t == [] then 0 else t[|t| - 1].now
  }

  /** The clock never goes back; nothing else is asked of a trace. */
  ghost predicate Clocked(t: Trace) {
    forall i :: 0 < i < |t| ==> t[i - 1].now <= t[i].now
  }

  lemma ClockedFront(t: Trace)
    requires Clocked(t) && t != []
    ensures Clocked(t[..|t| - 1]) && Clock(t[..|t| - 1]) <= t[|t| - 1].now
  {
  }

  predicate RefusedBy(s: Sys, ev: Event, e: Email) {
    ev.Check? && ev.email == e && Locked(s.attempts, e, ev.now)
  }

  predicate FailsBy(s: Sys, ev: Event, e: Email) {
    ev.Settle? && ev.email == e && !ev.valid && e in s.flying
  }

  predicate SucceedsBy(s: Sys, ev: Event, e: Email) {
    ev.Settle? && ev.email == e && ev.valid && e in s.flying
  }

  // ----- a refusal is earned -----

  /** Which events of a trace are evaluated failures of `e`. */
  function Failing(t: Trace, e: Email): nat -> bool {
    (k: nat) => k < |t| && FailsBy(Run(t[..k]), t[k], e)
  }

  /** Which are evaluated successes. */
  function Succeeding(t: Trace, e: Email): nat -> bool {
    (k: nat) => k < |t| && SucceedsBy(Run(t[..k]), t[k], e)
  }

  /** The failures among the first `n` events that no success follows. */
  function Since(failing: nat -> bool, succeeding: nat -> bool, n: nat): set<nat> {
    set k | 0 <= k < n && failing(k) && forall m :: k < m < n ==> !succeeding(m)
  }

  lemma SinceNext(failing: nat -> bool, succeeding: nat -> bool, n: nat)
    requires !succeeding(n)
    ensures Since(failing, succeeding, n + 1) == Since(failing, succeeding, n) + if failing(n) then {n} else {}
  {
    forall k: nat
      ensures k in Since(failing, succeeding, n + 1) <==>
              k in Since(failing, succeeding, n) || (failing(n) && k == n)
    {
      if k in Since(failing, succeeding, n) {
        assert forall m :: k < m < n + 1 ==> !succeeding(m);
      }
    }
  }

  lemma SinceStep(failing: nat -> bool, succeeding: nat -> bool, n: nat)
    requires !succeeding(n)
    ensures |Since(failing, succeeding, n + 1)| == |Since(failing, succeeding, n)| + if failing(n) then 1 else 0
  {
    SinceNext(failing, succeeding, n);
    assert n !in Since(failing, succeeding, n);
  }

  lemma {:induction false} CountedFailures(t: Trace, e: Email, n: nat)
    requires n <= |t| && e in Run(t[..n]).attempts
    ensures Run(t[..n]).attempts[e].count <= |Since(Failing(t, e), Succeeding(t, e), n)|
  {
    var m := n - 1;
    assert t[..n][..m] == t[..m];
    SinceStep(Failing(t, e), Succeeding(t, e), m);
    if e in Run(t[..m]).attempts {
      CountedFailures(t, e, m);
    }
  }

  /** Every refusal follows at least five evaluated failures since the last success. */
  lemma RefusalMeansFiveFailures(t: Trace, ev: Event, e: Email)
    requires RefusedBy(Run(t), ev, e)
    ensures |Since(Failing(t, e), Succeeding(t, e), |t|)| >= 5
  {
    assert t[..|t|] == t;
    CountedFailures(t, e, |t|);
  }

  /** Among the first `n` events, `k` is an evaluated failure and no evaluated attempt follows it. */
  predicate LastSettled(failing: nat -> bool, succeeding: nat -> bool, n: nat, k: nat) {
    k < n && failing(k) && forall m: nat :: k < m < n ==> !failing(m) && !succeeding(m)
  }

  lemma LastSettledNext(failing: nat -> bool, succeeding: nat -> bool, n: nat, k: nat)
    requires LastSettled(failing, succeeding, n, k) && !failing(n) && !succeeding(n)
    ensures LastSettled(failing, succeeding, n + 1, k)
  {
  }

  lemma StampStep(t: Trace, e: Email, n: nat)
    requires n < |t| && e in Run(t[..n + 1]).attempts
    ensures Failing(t, e)(n) ==> Run(t[..n + 1]).attempts[e].last == t[n].now
    ensures !Failing(t, e)(n) ==>
              && !Succeeding(t, e)(n) && e in Run(t[..n]).attempts
              && Run(t[..n + 1]).attempts[e].last == Run(t[..n]).attempts[e].last
  {
    assert t[..n + 1][..n] == t[..n];
  }

  /** At every moment the table's stamp is the time of the last evaluated failure. */
  lemma {:induction false} StampIsLastFailure(t: Trace, e: Email, n: nat) returns (k: nat)
    requires n <= |t| && e in Run(t[..n]).attempts
    ensures LastSettled(Failing(t, e), Succeeding(t, e), n, k) && Run(t[..n]).attempts[e].last == t[k].now
  {
    k := n - 1;
    StampStep(t, e, k);
    if !Failing(t, e)(k) {
      k := StampIsLastFailure(t, e, n - 1);
      LastSettledNext(Failing(t, e), Succeeding(t, e), n - 1, k);
    }
  }

  /** A refusal comes less than 900 seconds after the last evaluated failure, so the lock ends by itself. */
  lemma RefusalIsRecent(t: Trace, e: Email, now: nat) returns (k: nat)
    requires RefusedBy(Run(t), Check(e, now), e)
    ensures LastSettled(Failing(t, e), Succeeding(t, e), |t|, k) && now < t[k].now + 900_000
  {
    assert t[..|t|] == t;
    k := StampIsLastFailure(t, e, |t|);
    RecentIff(t[k].now, now);
  }

  // ----- five failures lock -----

  /** Failures of `e` in a row, each within the lockout time of the one before, and when the last was. */
  datatype Streak = Streak(count: nat, last: nat)

  function Longer(s: Streak, now: nat): Streak {
    Streak((if s.count > 0 && Recent(s.last, now) then s.count else 0) + 1, now)
  }

  function StreakOf(t: Trace, e: Email): Streak {
    if t == [] then Streak(0, 0)
    else
      var front, ev := t[..|t| - 1], t[|t| - 1];
      if FailsBy(Run(front), ev, e) then Longer(StreakOf(front, e), ev.now)
      else if SucceedsBy(Run(front), ev, e) then Streak(0, 0)
      else StreakOf(front, e)
  }

  /** The streak is in the table until the clock has passed its lockout, whatever cleanups ran. */
  ghost predicate Remembered(m: Attempts, s: Streak, e: Email, clock: nat) {
    s.count > 0 ==>
      (s.last <= clock && ((e in m && m[e].last == s.last && m[e].count >= s.count) || !Recent(s.last, clock)))
  }

  lemma StepRemembers(s: Sys, streak: Streak, e: Email, clock: nat, ev: Event)
    requires Remembered(s.attempts, streak, e, clock) && clock <= ev.now
    ensures FailsBy(s, ev, e) ==> Remembered(Step(s, ev).attempts, Longer(streak, ev.now), e, ev.now)
    ensures !FailsBy(s, ev, e) && !SucceedsBy(s, ev, e) ==> Remembered(Step(s, ev).attempts, streak, e, ev.now)
  {
  }

  lemma {:induction false} RunRemembers(t: Trace, e: Email)
    requires Clocked(t)
    ensures Remembered(Run(t).attempts, StreakOf(t, e), e, Clock(t))
  {
    if t != [] {
      var front, ev := t[..|t| - 1], t[|t| - 1];
      ClockedFront(t);
      RunRemembers(front, e);
      StepRemembers(Run(front), StreakOf(front, e), e, Clock(front), ev);
    }
  }

  /**
   Five failures in a row lock the account: every attempt that is checked within the lockout time of the
   last one is refused, with cleanups and other attempts, on this account or others, anywhere between.
   */
  lemma FiveInARowLock(t: Trace, e: Email, now: nat)
    requires Clocked(t) && Clock(t) <= now
    requires StreakOf(t, e).count >= 5 && now < StreakOf(t, e).last + 900_000
    ensures RefusedBy(Run(t), Check(e, now), e)
  {
    RecentIff(StreakOf(t, e).last, now);
    RunRemembers(t, e);
  }

  // ----- refusals leave no trace -----

  lemma {:induction false} RunIsFold(t: Trace)
    ensures Run(t) == Fold(Step, Sys(map[], multiset{}), t)
  {
    if t != [] {
      RunIsFold(t[..|t| - 1]);
    }
  }

  lemma RunSnoc(t: Trace, ev: Event)
    ensures Run(t + [ev]) == Step(Run(t), ev)
  {
    assert (t + [ev])[..|t|] == t;
  }

  lemma RunSplits(t: Trace, u: Trace)
    ensures Run(t + u) == Fold(Step, Run(t), u)
  {
    RunIsFold(t);
    RunIsFold(t + u);
    FoldConcat(Step, Sys(map[], multiset{}), t, u);
  }

  /** Refused attempts never extend the lock: striking one from a run changes nothing afterwards. */
  lemma RefusalLeavesNoTrace(t: Trace, ev: Event, u: Trace, e: Email)
    requires RefusedBy(Run(t), ev, e)
    ensures Run(t + [ev] + u) == Run(t + u)
  {
    RunSnoc(t, ev);
    RunSplits(t + [ev], u);
    RunSplits(t, u);
  }

  /** An expired lock that no cleanup has pruned is one failure away from locking again. */
  lemma ExpiredLockRelocksAtOnce(m: Attempts, e: Email, checked: nat, done: nat, now: nat)
    requires e in m && m[e].count >= MAX_ATTEMPTS && !Recent(m[e].last, checked) && Recent(done, now)
    ensures !Locked(m, e, checked)
    ensures Locked(Settled(m, e, done, false), e, now)
    ensures !Locked(Settled(Pruned(m, checked), e, done, false), e, now)
  {
  }

  // ----- how many failures overlapping attempts get evaluated -----

  /** Never more than `width` attempts on `e` in flight. */
  ghost predicate AtMost(t: Trace, e: Email, width: nat) {
    forall k :: 0 <= k <= |t| ==> Run(t[..k]).flying[e] <= width
  }

  /** Attempts in flight when the account locks may still fail; no others may. */
  ghost predicate Overshoot(streak: Streak, flying: nat, width: nat, clock: nat) {
    && streak.count <= MAX_ATTEMPTS - 1 + width
    && (streak.count >= MAX_ATTEMPTS && Recent(streak.last, clock) ==>
          streak.count + flying <= MAX_ATTEMPTS - 1 + width)
  }

  lemma StepOvershoot(s: Sys, streak: Streak, e: Email, clock: nat, ev: Event, width: nat)
    requires Remembered(s.attempts, streak, e, clock) && clock <= ev.now && s.flying[e] <= width
    requires Overshoot(streak, s.flying[e], width, clock)
    ensures FailsBy(s, ev, e) ==> Overshoot(Longer(streak, ev.now), Step(s, ev).flying[e], width, ev.now)
    ensures !FailsBy(s, ev, e) && !SucceedsBy(s, ev, e) ==> Overshoot(streak, Step(s, ev).flying[e], width, ev.now)
  {
  }

  lemma AtMostFront(t: Trace, e: Email, width: nat)
    requires AtMost(t, e, width) && t != []
    ensures AtMost(t[..|t| - 1], e, width) && Run(t[..|t| - 1]).flying[e] <= width
  {
    var front := t[..|t| - 1];
    forall k | 0 <= k <= |front|
      ensures Run(front[..k]).flying[e] <= width
    {
      assert front[..k] == t[..k];
    }
  }

  lemma {:induction false} RunOvershoot(t: Trace, e: Email, width: nat)
    requires Clocked(t) && AtMost(t, e, width)
    ensures Overshoot(StreakOf(t, e), Run(t).flying[e], width, Clock(t))
  {
    if t != [] {
      var front := t[..|t| - 1];
      ClockedFront(t);
      AtMostFront(t, e, width);
      RunRemembers(front, e);
      RunOvershoot(front, e, width);
      StepOvershoot(Run(front), StreakOf(front, e), e, Clock(front), t[|t| - 1], width);
    }
  }

  /** `n` failures in a row at time 0 are in the table and `flying` attempts in flight. */
  ghost predicate Holds(t: Trace, e: Email, n: nat, flying: nat, width: nat) {
    && Clocked(t) && AtMost(t, e, width) && (forall i :: 0 <= i < |t| ==> t[i].now == 0)
    && StreakOf(t, e) == Streak(n, 0) && Run(t).flying[e] == flying
    && (if n == 0 then e !in Run(t).attempts else e in Run(t).attempts && Run(t).attempts[e] == Entry(n, 0))
  }

  lemma AtMostSnoc(t: Trace, e: Email, width: nat, ev: Event)
    requires AtMost(t, e, width) && Step(Run(t), ev).flying[e] <= width
    ensures AtMost(t + [ev], e, width) && Run(t + [ev]) == Step(Run(t), ev)
  {
    var all := t + [ev];
    assert all[..|t|] == t;
    forall k | 0 <= k <= |all|
      ensures Run(all[..k]).flying[e] <= width
    {
      assert k <= |t| ==> all[..k] == t[..k];
      assert k == |all| ==> all[..k] == all;
    }
  }

  lemma StreakSnoc(t: Trace, ev: Event, e: Email)
    ensures StreakOf(t + [ev], e) ==
            if FailsBy(Run(t), ev, e) then Longer(StreakOf(t, e), ev.now)
            else if SucceedsBy(Run(t), ev, e) then Streak(0, 0)
            else StreakOf(t, e)
  {
    assert (t + [ev])[..|t|] == t;
  }

  lemma ClockedSnoc(t: Trace, ev: Event)
    requires Clocked(t) && (forall i :: 0 <= i < |t| ==> t[i].now == 0) && ev.now == 0
    ensures Clocked(t + [ev]) && forall i :: 0 <= i < |t| + 1 ==> (t + [ev])[i].now == 0
  {
  }

  lemma CheckOne(t: Trace, e: Email, n: nat, flying: nat, width: nat)
    requires Holds(t, e, n, flying, width) && n < MAX_ATTEMPTS && flying < width
    ensures Holds(t + [Check(e, 0)], e, n, flying + 1, width)
  {
    var ev := Check(e, 0);
    AtMostSnoc(t, e, width, ev);
    StreakSnoc(t, ev, e);
    ClockedSnoc(t, ev);
  }

  /** A failure at time 0 of one of the attempts in flight. */
  lemma FailStep(s: Sys, e: Email, n: nat)
    requires e in s.flying && (if n == 0 then e !in s.attempts else e in s.attempts && s.attempts[e] == Entry(n, 0))
    ensures
      var r := Step(s, Settle(e, 0, false));
      r.flying[e] == s.flying[e] - 1 && e in r.attempts && r.attempts[e] == Entry(n + 1, 0)
  {
  }

  lemma FailOne(t: Trace, e: Email, n: nat, flying: nat, width: nat)
    requires Holds(t, e, n, flying, width) && flying > 0
    ensures Holds(t + [Settle(e, 0, false)], e, n + 1, flying - 1, width)
  {
    var ev := Settle(e, 0, false);
    assert Run(t).flying[e] <= width by { assert t[..|t|] == t; }
    FailStep(Run(t), e, n);
    AtMostSnoc(t, e, width, ev);
    StreakSnoc(t, ev, e);
    ClockedSnoc(t, ev);
  }

  lemma {:induction false} ChecksInFlight(t: Trace, e: Email, n: nat, k: nat, width: nat) returns (u: Trace)
    requires Holds(t, e, n, 0, width) && n < MAX_ATTEMPTS && k <= width
    ensures Holds(u, e, n, k, width)
  {
    u := t;
    if k > 0 {
      u := ChecksInFlight(t, e, n, k - 1, width);
      CheckOne(u, e, n, k - 1, width);
      u := u + [Check(e, 0)];
    }
  }

  lemma {:induction false} FailAll(t: Trace, e: Email, n: nat, k: nat, width: nat) returns (u: Trace)
    requires Holds(t, e, n, k, width)
    ensures Holds(u, e, n + k, 0, width)
    decreases k
  {
    u := t;
    if k > 0 {
      FailOne(t, e, n, k, width);
      u := FailAll(t + [Settle(e, 0, false)], e, n + 1, k - 1, width);
    }
  }

  lemma {:induction false} OneByOne(e: Email, n: nat, width: nat) returns (t: Trace)
    requires n < MAX_ATTEMPTS && width > 0
    ensures Holds(t, e, n, 0, width)
  {
    if n == 0 {
      t := [];
    } else {
      t := OneByOne(e, n - 1, width);
      t := ChecksInFlight(t, e, n - 1, 1, width);
      t := FailAll(t, e, n - 1, 1, width);
    }
  }

  /** Four failures one by one, then as many attempts at once as the width allows. */
  lemma Overshooting(e: Email, n: nat, width: nat) returns (t: Trace)
    requires width > 0 && n <= MAX_ATTEMPTS - 1 + width
    ensures Clocked(t) && AtMost(t, e, width) && StreakOf(t, e).count == n
  {
    if n < MAX_ATTEMPTS {
      t := OneByOne(e, n, width);
    } else {
      t := OneByOne(e, MAX_ATTEMPTS - 1, width);
      t := ChecksInFlight(t, e, MAX_ATTEMPTS - 1, n - (MAX_ATTEMPTS - 1), width);
      t := FailAll(t, e, MAX_ATTEMPTS - 1, n - (MAX_ATTEMPTS - 1), width);
    }
  }

  /**
   Overlapping attempts get more than five failures evaluated in a row, exactly this many: with at most
   `width` attempts on an account in flight, a streak of `n` is possible if and only if n is at most
   four more than `width`. One attempt at a time gets five.
   */
  lemma EvaluatedFailuresExact(e: Email, width: nat, n: nat)
    requires width > 0
    ensures (exists t :: Clocked(t) && AtMost(t, e, width) && StreakOf(t, e).count == n)
            <==> n <= 4 + width
  {
    if t :| Clocked(t) && AtMost(t, e, width) && StreakOf(t, e).count == n {
      RunOvershoot(t, e, width);
    }
    if n <= MAX_ATTEMPTS - 1 + width {
      var t := Overshooting(e, n, width);
    }
  }
}
