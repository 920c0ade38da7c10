/**
 The controller that shrinks the scan batch when file descriptors run out and grows it back after
 sustained success. Here its calls run one at a time; `ScanControllerAtomics` interleaves them.
 */
module ScanController {
  import opened Arithmetic

  const BATCH_MIN: nat := 16
  const RECOVERY_THRESHOLD: nat := 50
  const COOLDOWN_MS: nat := 500

  function Max(a: nat, b: nat): nat {
    if a < b then b else a
  }

  function Min(a: nat, b: nat): nat {
    if a < b then a else b
  }

  /** `lastMs` is 0 while no reduction has happened. */
  datatype Control = Control(current: nat, target: nat, degraded: bool, streak: nat, lastMs: nat)

  function Fresh(target: nat): Control {
    Control(target, target, false, 0, 0)
  }

  function Halved(current: nat): nat {
    Max(current / 2, BATCH_MIN)
  }

  function Grown(current: nat, target: nat): nat {
    Min(current * 125 / 100, target)
  }

  /** Whether an exhaustion at `now` is swallowed by the cooldown of the previous reduction. */
  predicate RateLimited(c: Control, now: nat) {
    c.lastMs > 0 && now < c.lastMs + COOLDOWN_MS
  }

  /** Whether an exhaustion at `now` actually replaces the batch size. */
  predicate Reduces(c: Control, now: nat) {
    !RateLimited(c, now) && c.current != BATCH_MIN
  }

  function Exhaust(c: Control, now: nat): Control {
    if RateLimited(c, now) then c.(degraded := true, streak := 0)
    else if c.current == BATCH_MIN then c.(degraded := true)
    else c.(current := Halved(c.current), degraded := true, streak := 0, lastMs := Max(now, 1))
  }

  function Succeed(c: Control): Control {
    if !c.degraded then c
    else
      var streak := c.streak + 1;
      var grown := Grown(c.current, c.target);
      if streak >= RECOVERY_THRESHOLD && grown > c.current
      then c.(current := grown, streak := 0, degraded := grown < c.target)
      else c.(streak := streak)
  }

  // ----- the controller object, called by one thread -----

  class Controller {
    var current: nat
    const target: nat
    var degraded: bool
    var streak: nat
    var lastMs: nat

    ghost function State(): Control
      reads this
    {
      Control(current, target, degraded, streak, lastMs)
    }

    constructor (initial: nat)
      ensures State() == Fresh(initial)
    {
      current, target, degraded, streak, lastMs := initial, initial, false, 0, 0;
    }

    method OnFdExhaustion(now: nat)
      modifies this
      ensures State() == Exhaust(old(State()), now)
    {
      if lastMs > 0 && (if now < lastMs then 0 else now - lastMs) < COOLDOWN_MS {
        degraded := true;
        streak := 0;
        return;
      }
      // With no other thread running, the exchange succeeds the first time round the retry loop.
      var seen := current;
      var size := Max(seen / 2, BATCH_MIN);
      if seen == size && seen == BATCH_MIN {
        degraded := true;
        return;
      }
      current := size;
      degraded := true;
      streak := 0;
      lastMs := Max(now, 1);
    }

    method OnSuccess()
      modifies this
      ensures State() == Succeed(old(State()))
    {
      if !degraded {
        return;
      }
      streak := streak + 1;
      if streak >= RECOVERY_THRESHOLD {
        var size := Min(current * 125 / 100, target);
        if size > current {
          current := size;
          streak := 0;
          if size >= target {
            degraded := false;
          }
        }
      }
    }
  }

  // ----- serial runs -----

  datatype Call = Exhaustion(now: nat) | Success

  function Apply(c: Control, call: Call): Control {
    match call
    case Exhaustion(now) => Exhaust(c, now)
    case Success => Succeed(c)
  }

  function After(target: nat, calls: seq<Call>): Control {
    if calls == [] then Fresh(target) else Apply(After(target, calls[..|calls| - 1]), calls[|calls| - 1])
  }

  /** What every call keeps once the target is at least the floor. */
  ghost predicate Inv(c: Control) {
    && BATCH_MIN <= c.current <= c.target
    && (!c.degraded ==> c.current == c.target)
    && (c.current < c.target ==> c.streak < RECOVERY_THRESHOLD)
  }

  lemma GrowsByFour(current: nat, target: nat)
    requires BATCH_MIN <= current <= target
    ensures Grown(current, target) == target || Grown(current, target) >= current + 4
    ensures current < target ==> Grown(current, target) > current
  {
  }

  /** In every serial run: the size stays between the floor and the target, and is full unless degraded. */
  lemma {:induction false} SerialInv(target: nat, calls: seq<Call>)
    requires target >= BATCH_MIN
    ensures Inv(After(target, calls)) && After(target, calls).target == target
  {
    if calls != [] {
      SerialInv(target, calls[..|calls| - 1]);
    }
  }

  lemma {:induction false} LowTargetBefore(target: nat, calls: seq<Call>)
    requires target < BATCH_MIN
    ensures
      var c := After(target, calls);
      c.target == target && (c.current == BATCH_MIN || (c.current == target && c.lastMs == 0 && !c.degraded))
  {
    if calls != [] {
      LowTargetBefore(target, calls[..|calls| - 1]);
    }
  }

  /**
   A target below the floor breaks the upper bound: the first exhaustion raises the size to the
   floor, and no later call ever brings it back under the target.
   */
  lemma {:induction false} LowTargetStaysRaised(target: nat, calls: seq<Call>, k: nat)
    requires target < BATCH_MIN
    requires k < |calls| && calls[k].Exhaustion?
    ensures After(target, calls).current == BATCH_MIN && After(target, calls).target == target
  {
    var n := |calls| - 1;
    var front := calls[..n];
    if k < n {
      LowTargetStaysRaised(target, front, k);
    } else {
      LowTargetBefore(target, front);
    }
  }

  /** The size never exceeds the target, whatever the calls, if and only if the target is at least the floor. */
  lemma NeverExceedsIff(target: nat)
    ensures (forall calls :: After(target, calls).current <= target) <==> target >= BATCH_MIN
  {
    if target >= BATCH_MIN {
      forall calls
        ensures After(target, calls).current <= target
      {
        SerialInv(target, calls);
      }
    } else {
      LowTargetStaysRaised(target, [Exhaustion(0)], 0);
    }
  }

  // ----- reductions -----

  /** The state after exhaustions at the given times, nothing else in between. */
  function Exhausted(c: Control, times: seq<nat>): Control {
    if times == [] then c else Exhaust(Exhausted(c, times[..|times| - 1]), times[|times| - 1])
  }

  /** How many of those exhaustions replaced the size. */
  function Reductions(c: Control, times: seq<nat>): nat {
    if times == [] then 0
    else
      var front := times[..|times| - 1];
      Reductions(c, front) + (if Reduces(Exhausted(c, front), times[|times| - 1]) then 1 else 0)
  }

  /** A size divided by 2^k, down to the floor. */
  function Divided(size: nat, k: nat): nat
    decreases k
  {
    if k == 0 then size else Divided(size, k - 1) / 2
  }

  lemma {:induction false} DividedByPow2(size: nat, k: nat)
    ensures Divided(size, k) == size / Pow2(k)
  {
    if k > 0 {
      DividedByPow2(size, k - 1);
      DivDiv(size, Pow2(k - 1), 2);
    }
  }

  lemma {:induction false} ReductionsDivide(c: Control, times: seq<nat>)
    requires c.current >= BATCH_MIN
    ensures Exhausted(c, times).current == Max(Divided(c.current, Reductions(c, times)), BATCH_MIN)
  {
    if times != [] {
      var front, now := times[..|times| - 1], times[|times| - 1];
      ReductionsDivide(c, front);
    }
  }

  /** However the exhaustions fall around the cooldown, k effective ones divide the size by 2^k, down to the floor. */
  lemma ReductionsHalve(c: Control, times: seq<nat>)
    requires c.current >= BATCH_MIN
    ensures
      var quotient: int := c.current / Pow2(Reductions(c, times));
      Exhausted(c, times).current == if quotient < BATCH_MIN then BATCH_MIN else quotient
  {
    ReductionsDivide(c, times);
    DividedByPow2(c.current, Reductions(c, times));
  }

  /** Call `i` of a run reduces the size. */
  predicate ReducesAt(target: nat, calls: seq<Call>, i: nat)
    requires i < |calls|
  {
    calls[i].Exhaustion? && Reduces(After(target, calls[..i]), calls[i].now)
  }

  /** The stamp of a reduction survives until the next one. */
  lemma {:induction false} StampKept(target: nat, calls: seq<Call>, i: nat, n: nat)
    requires i < n <= |calls| && ReducesAt(target, calls, i)
    requires forall m :: i < m < n ==> !ReducesAt(target, calls, m)
    ensures After(target, calls[..n]).lastMs == Max(calls[i].now, 1)
  {
    var front := calls[..n];
    assert front[..n - 1] == calls[..n - 1];
    if i + 1 < n {
      StampKept(target, calls, i, n - 1);
      assert !ReducesAt(target, calls, n - 1);
    }
  }

  /** In a serial run two reductions are at least the cooldown apart, whatever the clock does between. */
  lemma ReductionsSpaced(target: nat, calls: seq<Call>, i: nat, j: nat)
    requires i < j < |calls| && ReducesAt(target, calls, i) && ReducesAt(target, calls, j)
    requires forall m :: i < m < j ==> !ReducesAt(target, calls, m)
    ensures calls[j].now >= Max(calls[i].now, 1) + COOLDOWN_MS
  {
    StampKept(target, calls, i, j);
  }

  /** Without a reduction so far there is no stamp. */
  lemma {:induction false} NoStamp(target: nat, calls: seq<Call>, n: nat)
    requires n <= |calls| && forall m :: 0 <= m < n ==> !ReducesAt(target, calls, m)
    ensures After(target, calls[..n]).lastMs == 0
  {
    if n > 0 {
      NoStamp(target, calls, n - 1);
      assert calls[..n][..n - 1] == calls[..n - 1];
      assert !ReducesAt(target, calls, n - 1);
    }
  }

  /** The first exhaustion reduces, unless the size is the floor. */
  lemma FirstReducesIff(target: nat, calls: seq<Call>, j: nat)
    requires j < |calls| && calls[j].Exhaustion? && forall m :: 0 <= m < j ==> !ReducesAt(target, calls, m)
    ensures ReducesAt(target, calls, j) <==> After(target, calls[..j]).current != 16
  {
    NoStamp(target, calls, j);
  }

  /** A later one reduces if and only if half a second has passed since the last and the size is not the floor. */
  lemma NextReducesIff(target: nat, calls: seq<Call>, i: nat, j: nat)
    requires i < j < |calls| && ReducesAt(target, calls, i) && calls[j].Exhaustion?
    requires forall m :: i < m < j ==> !ReducesAt(target, calls, m)
    ensures ReducesAt(target, calls, j) <==>
            && calls[j].now >= (if calls[i].now == 0 then 1 else calls[i].now) + 500
            && After(target, calls[..j]).current != 16
  {
    StampKept(target, calls, i, j);
  }

  /** Every exhaustion leaves it degraded, and only one that reduces changes the size: to half, not below 16. */
  lemma ExhaustionOutcome(c: Control, now: nat)
    ensures Exhaust(c, now).degraded && Exhaust(c, now).target == c.target
    ensures !Reduces(c, now) ==> Exhaust(c, now).current == c.current && Exhaust(c, now).lastMs == c.lastMs
    ensures Reduces(c, now) ==>
              var size := Exhaust(c, now).current;
              size >= 16 && (size == 16 || 2 * size <= c.current) && 2 * size + 1 >= c.current
  {
  }

  /** A quarter more, rounded down, and never above the target. */
  lemma GrowsByAQuarter(current: nat, target: nat)
    ensures
      var grown := Grown(current, target);
      if 5 * current < 4 * target then 4 * grown <= 5 * current < 4 * grown + 4 else grown == target
  {
  }

  // ----- recovery -----

  function Successes(c: Control, n: nat): Control {
    if n == 0 then c else Succeed(Successes(c, n - 1))
  }

  lemma {:induction false} SuccessesAdd(c: Control, a: nat, b: nat)
    ensures Successes(c, a + b) == Successes(Successes(c, a), b)
  {
    if b > 0 {
      SuccessesAdd(c, a, b - 1);
    }
  }

  lemma {:induction false} SuccessesKeepInv(c: Control, n: nat)
    requires Inv(c)
    ensures Inv(Successes(c, n)) && Successes(c, n).target == c.target
  {
    if n > 0 {
      SuccessesKeepInv(c, n - 1);
    }
  }

  /** Below the threshold successes only count. */
  lemma {:induction false} OnlyCounting(c: Control, n: nat)
    requires c.degraded && c.streak + n < RECOVERY_THRESHOLD
    ensures Successes(c, n) == c.(streak := c.streak + n)
  {
    if n > 0 {
      OnlyCounting(c, n - 1);
    }
  }

  lemma CountThenOne(c: Control, n: nat)
    requires c.degraded && c.streak + n < RECOVERY_THRESHOLD
    ensures Successes(c, n + 1) == Succeed(c.(streak := c.streak + n))
  {
    OnlyCounting(c, n);
  }

  lemma CompletesStreak(c: Control)
    requires c.degraded && c.streak == RECOVERY_THRESHOLD - 1 && BATCH_MIN <= c.current < c.target
    ensures
      var grown := Grown(c.current, c.target);
      Succeed(c) == c.(current := grown, streak := 0, degraded := grown < c.target)
  {
    GrowsByFour(c.current, c.target);
  }

  /** The success that completes the streak grows the batch by a quarter. */
  lemma OneRecovery(c: Control)
    requires Inv(c) && c.current < c.target
    ensures
      var grown := Grown(c.current, c.target);
      Successes(c, RECOVERY_THRESHOLD - c.streak) == c.(current := grown, streak := 0, degraded := grown < c.target)
  {
    CountThenOne(c, RECOVERY_THRESHOLD - 1 - c.streak);
    CompletesStreak(c.(streak := RECOVERY_THRESHOLD - 1));
  }

  // ----- growth is earned -----

  function SuccessCount(calls: seq<Call>): nat {
    if calls == [] then 0 else SuccessCount(calls[..|calls| - 1]) + if calls[|calls| - 1].Success? then 1 else 0
  }

  lemma StreakStep(c: Control, call: Call)
    ensures Apply(c, call).streak <= c.streak + if call.Success? then 1 else 0
  {
  }

  lemma AfterNext(target: nat, calls: seq<Call>, n: nat)
    requires n < |calls|
    ensures After(target, calls[..n + 1]) == Apply(After(target, calls[..n]), calls[n])
  {
    assert calls[..n + 1][..n] == calls[..n];
  }

  lemma CountNext(calls: seq<Call>, k: nat, n: nat)
    requires k <= n < |calls|
    ensures SuccessCount(calls[k..n + 1]) == SuccessCount(calls[k..n]) + if calls[n].Success? then 1 else 0
  {
    assert calls[k..n + 1][..n - k] == calls[k..n];
  }

  lemma ResetClears(c: Control, now: nat)
    requires RateLimited(c, now) || c.current != 16
    ensures Exhaust(c, now).streak == 0
  {
  }

  lemma StreakNext(target: nat, calls: seq<Call>, k: nat, n: nat)
    requires k <= n < |calls| && After(target, calls[..n]).streak <= SuccessCount(calls[k..n])
    ensures After(target, calls[..n + 1]).streak <= SuccessCount(calls[k..n + 1])
  {
    AfterNext(target, calls, n);
    StreakStep(After(target, calls[..n]), calls[n]);
    CountNext(calls, k, n);
  }

  lemma {:induction false} StreakSince(target: nat, calls: seq<Call>, k: nat, n: nat)
    requires k <= n <= |calls| && After(target, calls[..k]).streak == 0
    ensures After(target, calls[..n]).streak <= SuccessCount(calls[k..n])
  {
    if k < n {
      StreakSince(target, calls, k, n - 1);
      StreakNext(target, calls, k, n - 1);
    }
  }

  /** The streak is at most the number of successes since any exhaustion inside the cooldown or above the floor. */
  lemma StreakIsEarned(target: nat, calls: seq<Call>, k: nat, n: nat)
    requires k < n <= |calls| && calls[k].Exhaustion?
    requires RateLimited(After(target, calls[..k]), calls[k].now) || After(target, calls[..k]).current != 16
    ensures After(target, calls[..n]).streak <= SuccessCount(calls[k + 1..n])
  {
    AfterNext(target, calls, k);
    ResetClears(After(target, calls[..k]), calls[k].now);
    StreakSince(target, calls, k + 1, n);
  }

  /** The size grows at a call only if fifty successes came since every such exhaustion, that call included. */
  lemma GrowthIsEarned(target: nat, calls: seq<Call>, k: nat, j: nat)
    requires target >= BATCH_MIN && k < j < |calls| && calls[k].Exhaustion?
    requires RateLimited(After(target, calls[..k]), calls[k].now) || After(target, calls[..k]).current != 16
    requires After(target, calls[..j + 1]).current > After(target, calls[..j]).current
    ensures calls[j].Success? && SuccessCount(calls[k + 1..j + 1]) >= 50
  {
    SerialInv(target, calls[..j]);
    AfterNext(target, calls, j);
    StreakIsEarned(target, calls, k, j);
    CountNext(calls, k + 1, j);
  }

  /** How many successes are surely enough: a full streak for each four missing places. */
  function RecoveryBound(c: Control): nat
    requires c.current <= c.target
  {
    RECOVERY_THRESHOLD * ((c.target - c.current + 3) / 4)
  }

  /** Not degraded is a fixed point of success. */
  lemma {:induction false} RestedStays(c: Control, n: nat)
    requires !c.degraded
    ensures Successes(c, n) == c
  {
    if n > 0 {
      RestedStays(c, n - 1);
    }
  }

  lemma BoundDrops(c: Control, d: Control)
    requires c.current + 4 <= d.current <= d.target == c.target
    ensures RecoveryBound(d) + RECOVERY_THRESHOLD <= RecoveryBound(c)
  {
  }

  /** The next stage of a recovery: how many successes it takes and where it leads. */
  function Stage(c: Control): Control {
    var grown := Grown(c.current, c.target);
    c.(current := grown, streak := 0, degraded := grown < c.target)
  }

  lemma StageAdvances(c: Control, n: nat)
    requires Inv(c) && c.current < c.target && n >= RecoveryBound(c)
    ensures Inv(Stage(c)) && Stage(c).target == c.target && c.current < Stage(c).current
    ensures n >= RECOVERY_THRESHOLD - c.streak
    ensures Stage(c).degraded ==>
              Stage(c).current < c.target && n - (RECOVERY_THRESHOLD - c.streak) >= RecoveryBound(Stage(c))
    ensures !Stage(c).degraded ==> Stage(c).current == c.target
  {
    GrowsByFour(c.current, c.target);
    if Stage(c).degraded {
      BoundDrops(c, Stage(c));
    }
  }

  /** From any size below the target, enough uninterrupted successes restore it and end the degradation. */
  lemma {:induction false} Recovers(c: Control, n: nat)
    requires Inv(c) && c.current < c.target && n >= 50 * ((c.target - c.current + 3) / 4)
    ensures Successes(c, n).current == c.target && !Successes(c, n).degraded
    decreases c.target - c.current
  {
    var a := RECOVERY_THRESHOLD - c.streak;
    StageAdvances(c, n);
    OneRecovery(c);
    SuccessesAdd(c, a, n - a);
    if Stage(c).degraded {
      Recovers(Stage(c), n - a);
    } else {
      RestedStays(Stage(c), n - a);
    }
  }

  /** A degraded controller already at full size never leaves the degraded state by succeeding. */
  lemma {:induction false} StuckAtFullSize(c: Control, n: nat)
    requires c.degraded && c.current == c.target
    ensures Successes(c, n).degraded && Successes(c, n).current == c.target && Successes(c, n).target == c.target
  {
    if n > 0 {
      StuckAtFullSize(c, n - 1);
    }
  }

  /** So a degraded controller can recover by success alone if and only if it is below full size. */
  lemma DegradationEndsIff(c: Control)
    requires Inv(c) && c.degraded
    ensures (exists n :: n >= 0 && !Successes(c, n).degraded) <==> c.current < c.target
  {
    if c.current < c.target {
      Recovers(c, RecoveryBound(c));
    } else {
      forall n: nat ensures Successes(c, n).degraded {
        StuckAtFullSize(c, n);
      }
    }
  }

  /** A serial run that gets stuck: recover, then an exhaustion inside the cooldown of the old reduction. */
  lemma StuckRun()
    ensures
      var reduced := Exhaust(Fresh(20), 1000);
      var recovered := Successes(reduced, RECOVERY_THRESHOLD);
      var stuck := Exhaust(recovered, 1400);
      recovered == Control(20, 20, false, 0, 1000) && stuck.degraded && stuck.current == stuck.target
  {
    var reduced := Exhaust(Fresh(20), 1000);
    assert reduced == Control(16, 20, true, 0, 1000);
    OneRecovery(reduced);
  }
}
