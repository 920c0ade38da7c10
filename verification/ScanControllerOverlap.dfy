/**
 When the serial laws hold of the threads: a run whose calls do not overlap does what the serial
 controller does, and overlap is what breaks the law that not degraded means full size. Loads here
 return the latest value.
 */
module ScanControllerOverlap {
  import opened ScanController
  import opened ScanControllerAtomics

  /** The controller as a load of every atomic would show it. */
  function Shown(s: State): Control
    requires Stored(s)
  {
    Control(Latest(s.size), s.target, Latest(s.degraded), Latest(s.streak), Latest(s.last))
  }

  /** The move's load picks the latest value. */
  predicate LoadsLatest(s: State, m: Move) {
    match m
    case BeginExhaustion(_, _, pick) => pick == |s.last| - 1
    case BeginSuccess(_, pick) => pick == |s.degraded| - 1
    case Continue(_, pick) => pick == |s.size| - 1
  }

  /** What one access by a thread at `pc` does to what is shown, and where it leaves the thread. */
  function Moved(c: Control, pc: Pc): (Control, Pc) {
    match pc
    case Idle => (c, Idle)
    case LimitedDegrade => (c.(degraded := true), LimitedReset)
    case LimitedReset => (c.(streak := 0), Idle)
    case Retry(now) => (c, if c.current == BATCH_MIN then FloorDegrade else Exchange(now, c.current))
    case Exchange(now, seen) =>
      if c.current == seen then (c.(current := Halved(seen)), WonDegrade(now)) else (c, Retry(now))
    case FloorDegrade => (c.(degraded := true), Idle)
    case WonDegrade(now) => (c.(degraded := true), WonReset(now))
    case WonReset(now) => (c.(streak := 0), WonStamp(now))
    case WonStamp(now) => (c.(lastMs := Max(now, 1)), Idle)
    case Count => (c.(streak := c.streak + 1), if c.streak + 1 >= RECOVERY_THRESHOLD then Recover else Idle)
    case Recover => (c, if Grown(c.current, c.target) > c.current then StoreSize(Grown(c.current, c.target)) else Idle)
    case StoreSize(size) => (c.(current := size), StoreReset(size))
    case StoreReset(size) => (c.(streak := 0), if size >= c.target then StoreRested else Idle)
    case StoreRested => (c.(degraded := false), Idle)
  }

  lemma ContinueMoves(s: State, t: nat, pick: nat)
    requires Stored(s) && t < |s.threads| && pick == |s.size| - 1
    ensures
      var r, to := Do(s, Continue(t, pick)), Moved(Shown(s), s.threads[t]);
      Stored(r) && Shown(r) == to.0 && r.threads == s.threads[t := to.1]
  {
    match s.threads[t] {
      case Retry(_) =>
      case Exchange(_, _) =>
      case Count =>
      case Recover =>
      case StoreSize(_) =>
      case StoreReset(_) =>
      case _ =>
    }
  }

  /** Where a call takes an idle thread. */
  function Begun(c: Control, call: Call): Pc {
    match call
    case Exhaustion(now) => if RateLimited(c, now) then LimitedDegrade else Retry(now)
    case Success => if c.degraded then Count else Idle
  }

  function CallOf(m: Move): Call
    requires !m.Continue?
  {
    match m case BeginExhaustion(_, now, _) => Exhaustion(now) case BeginSuccess(_, _) => Success
  }

  predicate Begins(s: State, m: Move) {
    !m.Continue? && m.thread < |s.threads| && s.threads[m.thread] == Idle
  }

  lemma BeginMoves(s: State, m: Move)
    requires Stored(s) && Begins(s, m) && LoadsLatest(s, m)
    ensures
      var r := Do(s, m);
      Stored(r) && Shown(r) == Shown(s) && r.threads == s.threads[m.thread := Begun(Shown(s), CallOf(m))]
  {
    DoKeepsStored(s, m);
  }

  /** A begin that is not possible changes nothing. */
  lemma NoBegin(s: State, m: Move)
    requires Stored(s) && !m.Continue? && !Begins(s, m)
    ensures Do(s, m) == s
  {
  }

  // ----- a call on its own -----

  function Reduced(c: Control, now: nat): Control {
    if c.current == BATCH_MIN then c.(degraded := true)
    else c.(current := Halved(c.current), degraded := true, streak := 0, lastMs := Max(now, 1))
  }

  function Recovered(c: Control): Control {
    var grown := Grown(c.current, c.target);
    if grown > c.current then c.(current := grown, streak := 0, degraded := grown < c.target) else c
  }

  /** What is shown when a thread at `pc` has returned, if no other thread moves. */
  function Finish(c: Control, pc: Pc): Control {
    match pc
    case Idle => c
    case LimitedDegrade => c.(degraded := true, streak := 0)
    case LimitedReset => c.(streak := 0)
    case Retry(now) => Reduced(c, now)
    case Exchange(now, _) => Reduced(c, now)
    case FloorDegrade => c.(degraded := true)
    case WonDegrade(now) => c.(degraded := true, streak := 0, lastMs := Max(now, 1))
    case WonReset(now) => c.(streak := 0, lastMs := Max(now, 1))
    case WonStamp(now) => c.(lastMs := Max(now, 1))
    case Count => Succeed(c)
    case Recover => Recovered(c)
    case StoreSize(size) => c.(current := size, streak := 0, degraded := size < c.target)
    case StoreReset(size) => c.(streak := 0, degraded := size < c.target)
    case StoreRested => c.(degraded := false)
  }

  /** What a thread at `pc` may rely on while no other thread moves. */
  predicate Ready(c: Control, pc: Pc) {
    match pc
    case Exchange(_, seen) => seen == c.current && seen != BATCH_MIN
    case Count => c.degraded
    case Recover => c.degraded
    case StoreSize(_) => c.degraded
    case StoreReset(_) => c.degraded
    case _ => true
  }

  lemma FinishKept(c: Control, pc: Pc)
    requires Ready(c, pc)
    ensures
      var (d, next) := Moved(c, pc);
      Ready(d, next) && Finish(d, next) == Finish(c, pc)
  {
  }

  lemma FinishBegun(c: Control, call: Call)
    ensures Ready(c, Begun(c, call)) && Finish(c, Begun(c, call)) == Apply(c, call)
  {
  }

  // ----- runs without overlap -----

  ghost predicate Quiescent(s: State) {
    forall i :: 0 <= i < |s.threads| ==> s.threads[i] == Idle
  }

  ghost predicate LatestRun(target: nat, n: nat, moves: seq<Move>) {
    forall k :: 0 <= k < |moves| ==> LoadsLatest(Run(target, n, moves[..k]), moves[k])
  }

  /** A call begins only while no other is under way. */
  ghost predicate NoOverlap(target: nat, n: nat, moves: seq<Move>) {
    forall k :: 0 <= k < |moves| && Begins(Run(target, n, moves[..k]), moves[k]) ==>
      Quiescent(Run(target, n, moves[..k]))
  }

  /** The calls in the order they begin. */
  ghost function Calls(target: nat, n: nat, moves: seq<Move>): seq<Call> {
    if moves == [] then []
    else
      var front, m := moves[..|moves| - 1], moves[|moves| - 1];
      Calls(target, n, front) + if Begins(Run(target, n, front), m) then [CallOf(m)] else []
  }

  ghost predicate Alone(s: State, i: nat) {
    forall j :: 0 <= j < |s.threads| && j != i ==> s.threads[j] == Idle
  }

  ghost predicate WillBe(s: State, i: nat, c: Control)
    requires Stored(s) && i < |s.threads|
  {
    Ready(Shown(s), s.threads[i]) && Finish(Shown(s), s.threads[i]) == c
  }

  /** At most one thread is under way, and it will leave the serial controller's state behind. */
  ghost predicate Follows(s: State, c: Control) {
    && Stored(s)
    && (Quiescent(s) ==> Shown(s) == c)
    && forall i :: 0 <= i < |s.threads| && s.threads[i] != Idle ==> Alone(s, i) && WillBe(s, i, c)
  }

  /** A thread that is alone follows `c` if what it will leave behind is `c`. */
  lemma OneThread(s: State, i: nat, c: Control)
    requires Stored(s) && i < |s.threads| && Alone(s, i) && WillBe(s, i, c)
    ensures Follows(s, c)
  {
  }

  lemma ContinueFollows(s: State, t: nat, pick: nat, c: Control)
    requires Follows(s, c) && pick == |s.size| - 1
    ensures Follows(Do(s, Continue(t, pick)), c)
  {
    if t < |s.threads| && s.threads[t] != Idle {
      ContinueMoves(s, t, pick);
      FinishKept(Shown(s), s.threads[t]);
      OneThread(Do(s, Continue(t, pick)), t, c);
    }
  }

  lemma BeginFollows(s: State, m: Move, c: Control)
    requires Follows(s, c) && LoadsLatest(s, m) && Begins(s, m) && Quiescent(s)
    ensures Follows(Do(s, m), Apply(c, CallOf(m)))
  {
    BeginMoves(s, m);
    FinishBegun(c, CallOf(m));
    OneThread(Do(s, m), m.thread, Apply(c, CallOf(m)));
  }

  lemma RunsFront(target: nat, n: nat, moves: seq<Move>)
    requires moves != []
    ensures LatestRun(target, n, moves) ==> LatestRun(target, n, moves[..|moves| - 1])
    ensures NoOverlap(target, n, moves) ==> NoOverlap(target, n, moves[..|moves| - 1])
    ensures LatestRun(target, n, moves) ==> LoadsLatest(Run(target, n, moves[..|moves| - 1]), moves[|moves| - 1])
    ensures NoOverlap(target, n, moves) && Begins(Run(target, n, moves[..|moves| - 1]), moves[|moves| - 1]) ==>
              Quiescent(Run(target, n, moves[..|moves| - 1]))
  {
    var front := moves[..|moves| - 1];
    forall k | 0 <= k < |front|
      ensures front[..k] == moves[..k] && front[k] == moves[k]
    {
    }
  }

  lemma StepFollows(s: State, m: Move, c: Control)
    requires Follows(s, c) && LoadsLatest(s, m) && (Begins(s, m) ==> Quiescent(s))
    ensures Follows(Do(s, m), if Begins(s, m) then Apply(c, CallOf(m)) else c)
  {
    if m.Continue? {
      ContinueFollows(s, m.thread, m.pick, c);
    } else if Begins(s, m) {
      BeginFollows(s, m, c);
    } else {
      NoBegin(s, m);
    }
  }

  lemma CallsSnoc(target: nat, n: nat, moves: seq<Move>)
    requires moves != []
    ensures
      var front, m := moves[..|moves| - 1], moves[|moves| - 1];
      After(target, Calls(target, n, moves)) ==
      if Begins(Run(target, n, front), m) then Apply(After(target, Calls(target, n, front)), CallOf(m))
      else After(target, Calls(target, n, front))
  {
    var front, m := moves[..|moves| - 1], moves[|moves| - 1];
    if Begins(Run(target, n, front), m) {
    } else {
      assert Calls(target, n, moves) == Calls(target, n, front);
    }
  }

  /** A run without overlap follows the serial controller through the same calls. */
  lemma {:induction false} NoOverlapFollows(target: nat, n: nat, moves: seq<Move>)
    requires LatestRun(target, n, moves) && NoOverlap(target, n, moves)
    ensures Follows(Run(target, n, moves), After(target, Calls(target, n, moves)))
  {
    if moves == [] {
    } else {
      var front, m := moves[..|moves| - 1], moves[|moves| - 1];
      RunsFront(target, n, moves);
      NoOverlapFollows(target, n, front);
      StepFollows(Run(target, n, front), m, After(target, Calls(target, n, front)));
      CallsSnoc(target, n, moves);
    }
  }

  /**
   The refinement: whenever the threads are idle after a run without overlap, what they show is the
   serial controller's state, so every law of serial runs is a law of these.
   */
  lemma NoOverlapIsSerial(target: nat, n: nat, moves: seq<Move>)
    requires LatestRun(target, n, moves) && NoOverlap(target, n, moves) && Quiescent(Run(target, n, moves))
    ensures Shown(Run(target, n, moves)) == After(target, Calls(target, n, moves))
  {
    NoOverlapFollows(target, n, moves);
  }

  // ----- one thread, or no room -----

  lemma DoShape(s: State, m: Move)
    requires Stored(s)
    ensures |Do(s, m).threads| == |s.threads| && Do(s, m).target == s.target
  {
  }

  lemma {:induction false} RunShape(target: nat, n: nat, moves: seq<Move>)
    ensures |Run(target, n, moves).threads| == n && Run(target, n, moves).target == target
  {
    if moves != [] {
      RunShape(target, n, moves[..|moves| - 1]);
      DoShape(Run(target, n, moves[..|moves| - 1]), moves[|moves| - 1]);
    }
  }

  lemma OneThreadNoOverlap(target: nat, n: nat, moves: seq<Move>)
    requires n <= 1
    ensures NoOverlap(target, n, moves)
  {
    forall k | 0 <= k < |moves| && Begins(Run(target, n, moves[..k]), moves[k])
      ensures Quiescent(Run(target, n, moves[..k]))
    {
      RunShape(target, n, moves[..k]);
    }
  }

  /** The law: idle and not degraded means full size. */
  ghost predicate FullUnlessDegraded(s: State) {
    Stored(s) && (Quiescent(s) && !Latest(s.degraded) ==> Latest(s.size) == s.target)
  }

  lemma OneThreadFull(target: nat, n: nat, moves: seq<Move>)
    requires target >= BATCH_MIN && n <= 1 && LatestRun(target, n, moves)
    ensures FullUnlessDegraded(Run(target, n, moves))
  {
    OneThreadNoOverlap(target, n, moves);
    NoOverlapFollows(target, n, moves);
    SerialInv(target, Calls(target, n, moves));
  }

  lemma FloorTargetFull(n: nat, moves: seq<Move>)
    ensures FullUnlessDegraded(Run(BATCH_MIN, n, moves))
  {
    ScanControllerAtomics.RunInv(BATCH_MIN, n, moves);
  }

  // ----- every serial sequence of calls is a run of one thread among many -----

  lemma Then(target: nat, n: nat, moves: seq<Move>, m: Move) returns (more: seq<Move>)
    requires LatestRun(target, n, moves) && LoadsLatest(Run(target, n, moves), m)
    ensures more == moves + [m] && LatestRun(target, n, more) && Run(target, n, more) == Do(Run(target, n, moves), m)
    ensures Calls(target, n, more) ==
            Calls(target, n, moves) + if Begins(Run(target, n, moves), m) then [CallOf(m)] else []
    ensures NoOverlap(target, n, moves) && (Begins(Run(target, n, moves), m) ==> Quiescent(Run(target, n, moves))) ==>
              NoOverlap(target, n, more)
  {
    more := moves + [m];
    assert more[..|more| - 1] == moves;
    forall k | 0 <= k < |moves|
      ensures more[..k] == moves[..k] && more[k] == moves[k]
    {
    }
  }

  function Rank(pc: Pc): nat {
    match pc
    case Idle => 0
    case LimitedDegrade => 2
    case LimitedReset => 1
    case Retry(_) => 5
    case Exchange(_, _) => 4
    case FloorDegrade => 1
    case WonDegrade(_) => 3
    case WonReset(_) => 2
    case WonStamp(_) => 1
    case Count => 5
    case Recover => 4
    case StoreSize(_) => 3
    case StoreReset(_) => 2
    case StoreRested => 1
  }

  lemma RankDrops(c: Control, pc: Pc)
    requires Ready(c, pc) && pc != Idle
    ensures Rank(Moved(c, pc).1) < Rank(pc)
  {
  }

  /** A call under way in thread 0 alone can be run to its end. */
  lemma {:induction false} Completes(target: nat, n: nat, moves: seq<Move>) returns (more: seq<Move>)
    requires n > 0 && LatestRun(target, n, moves) && NoOverlap(target, n, moves)
    requires |Run(target, n, moves).threads| == n && Alone(Run(target, n, moves), 0)
    ensures LatestRun(target, n, more) && NoOverlap(target, n, more) && Quiescent(Run(target, n, more))
    ensures Calls(target, n, more) == Calls(target, n, moves)
    decreases Rank(Run(target, n, moves).threads[0])
  {
    var s := Run(target, n, moves);
    if s.threads[0] == Idle {
      more := moves;
    } else {
      NoOverlapFollows(target, n, moves);
      var m := Continue(0, |s.size| - 1);
      ContinueMoves(s, 0, |s.size| - 1);
      RankDrops(Shown(s), s.threads[0]);
      more := Then(target, n, moves, m);
      more := Completes(target, n, more);
    }
  }

  function BeginOf(s: State, thread: nat, call: Call): Move
    requires Stored(s)
  {
    match call
    case Exhaustion(now) => BeginExhaustion(thread, now, |s.last| - 1)
    case Success => BeginSuccess(thread, |s.degraded| - 1)
  }

  lemma BeginsOne(s: State, n: nat, call: Call)
    requires Stored(s) && Quiescent(s) && |s.threads| == n && n > 0
    ensures
      var m := BeginOf(s, 0, call);
      && LoadsLatest(s, m) && Begins(s, m) && CallOf(m) == call
      && |Do(s, m).threads| == n && Alone(Do(s, m), 0)
  {
    BeginMoves(s, BeginOf(s, 0, call));
  }

  /** A run of these calls one after another, all returned. */
  ghost predicate Realised(target: nat, n: nat, moves: seq<Move>, calls: seq<Call>) {
    && LatestRun(target, n, moves) && NoOverlap(target, n, moves) && Quiescent(Run(target, n, moves))
    && Calls(target, n, moves) == calls
  }

  lemma RealisesOne(target: nat, n: nat, moves: seq<Move>, calls: seq<Call>, call: Call) returns (more: seq<Move>)
    requires n > 0 && Realised(target, n, moves, calls)
    ensures Realised(target, n, more, calls + [call])
  {
    RunShape(target, n, moves);
    BeginsOne(Run(target, n, moves), n, call);
    var begun := Then(target, n, moves, BeginOf(Run(target, n, moves), 0, call));
    more := Completes(target, n, begun);
  }

  lemma {:induction false} Realises(target: nat, n: nat, calls: seq<Call>) returns (moves: seq<Move>)
    requires n > 0
    ensures Realised(target, n, moves, calls)
  {
    if calls == [] {
      moves := [];
    } else {
      var front, call := calls[..|calls| - 1], calls[|calls| - 1];
      assert calls == front + [call];
      var before := Realises(target, n, front);
      moves := RealisesOne(target, n, before, front, call);
    }
  }

  // ----- two threads -----

  /** What is shown, and where threads 0 and 1 stand. */
  datatype Pair = Pair(c: Control, p: Pc, q: Pc)

  /** Threads 0 and 1 stand as given, all others are idle. */
  ghost predicate Stand(s: State, n: nat, w: Pair) {
    && Stored(s) && Shown(s) == w.c && |s.threads| == n && n >= 2
    && s.threads[0] == w.p && s.threads[1] == w.q
    && forall i :: 2 <= i < n ==> s.threads[i] == Idle
  }

  /** What one of the two threads does next: a call, or an access of the call it is in. */
  datatype Act = Enter(second: bool, call: Call) | Go(second: bool)

  predicate MayAct(w: Pair, a: Act) {
    a.Enter? ==> (if a.second then w.q else w.p) == Idle
  }

  function Acted(w: Pair, a: Act): Pair {
    match a
    case Enter(second, call) => if second then w.(q := Begun(w.c, call)) else w.(p := Begun(w.c, call))
    case Go(second) =>
      var to := Moved(w.c, if second then w.q else w.p);
      if second then Pair(to.0, w.p, to.1) else Pair(to.0, to.1, w.q)
  }

  function MoveOf(s: State, a: Act): Move
    requires Stored(s)
  {
    match a
    case Enter(second, call) => BeginOf(s, if second then 1 else 0, call)
    case Go(second) => Continue(if second then 1 else 0, |s.size| - 1)
  }

  lemma ActStep(s: State, n: nat, w: Pair, a: Act)
    requires Stand(s, n, w) && MayAct(w, a)
    ensures LoadsLatest(s, MoveOf(s, a)) && Stand(Do(s, MoveOf(s, a)), n, Acted(w, a))
  {
    if a.Enter? {
      BeginMoves(s, MoveOf(s, a));
    } else {
      ContinueMoves(s, if a.second then 1 else 0, |s.size| - 1);
    }
  }

  /**
   The race: thread 0 enters the success that recovers fully and stops just before it clears the flag;
   thread 1 runs an exhaustion; thread 0 clears the flag.
   */
  function Race(i: nat): Act {
    if i == 0 then Enter(false, Success)
    else if i < 5 then Go(false)
    else if i == 5 then Enter(true, Exhaustion(501))
    else if i < 11 then Go(true)
    else Go(false)
  }

  function Raced(w: Pair, k: nat): Pair {
    if k == 0 then w else Acted(Raced(w, k - 1), Race(k - 1))
  }

  lemma {:induction false} Play(target: nat, n: nat, moves: seq<Move>, w: Pair, k: nat) returns (more: seq<Move>)
    requires LatestRun(target, n, moves) && Stand(Run(target, n, moves), n, w)
    requires forall i :: 0 <= i < k ==> MayAct(Raced(w, i), Race(i))
    ensures LatestRun(target, n, more) && Stand(Run(target, n, more), n, Raced(w, k))
  {
    more := moves;
    if k > 0 {
      var before := Play(target, n, moves, w, k - 1);
      var s := Run(target, n, before);
      ActStep(s, n, Raced(w, k - 1), Race(k - 1));
      more := Then(target, n, before, MoveOf(s, Race(k - 1)));
    }
  }

  /** The success before which a degradation ends. */
  lemma {:induction false} LastDegraded(c: Control, n: nat) returns (k: nat)
    requires c.degraded && !Successes(c, n).degraded
    ensures k < n && Successes(c, k).degraded && !Successes(c, k + 1).degraded
  {
    if Successes(c, n - 1).degraded {
      k := n - 1;
    } else {
      k := LastDegraded(c, n - 1);
    }
  }

  lemma {:induction false} AfterSuccesses(target: nat, calls: seq<Call>, n: nat) returns (more: seq<Call>)
    ensures After(target, more) == Successes(After(target, calls), n)
  {
    more := calls;
    if n > 0 {
      more := AfterSuccesses(target, calls, n - 1);
      more := more + [Success];
    }
  }

  lemma {:induction false} SuccessesKeepStamp(c: Control, n: nat)
    ensures Successes(c, n).lastMs == c.lastMs && Successes(c, n).target == c.target
  {
    if n > 0 {
      SuccessesKeepStamp(c, n - 1);
    }
  }

  /** A serial state one success short of full recovery, with the stamp of a reduction at the start. */
  ghost predicate AlmostRecovered(c: Control, target: nat) {
    && c.target == target && c.lastMs == 1 && c.degraded && c.streak + 1 >= RECOVERY_THRESHOLD
    && Grown(c.current, target) == target > c.current
  }

  lemma ReachAlmost(target: nat) returns (calls: seq<Call>)
    requires target > BATCH_MIN
    ensures AlmostRecovered(After(target, calls), target)
  {
    var first := Exhaust(Fresh(target), 0);
    assert [] + [Exhaustion(0)] == [Exhaustion(0)];
    Recovers(first, RecoveryBound(first));
    var k := LastDegraded(first, RecoveryBound(first));
    SuccessesKeepStamp(first, k);
    SuccessesKeepInv(first, k);
    calls := AfterSuccesses(target, [Exhaustion(0)], k);
  }

  lemma RaceRecovers(c: Control, target: nat)
    requires AlmostRecovered(c, target)
    ensures
      var w := Pair(c, Idle, Idle);
      && Raced(w, 5) == Pair(c.(current := target, streak := 0), StoreRested, Idle)
      && forall i :: 0 <= i < 5 ==> MayAct(Raced(w, i), Race(i))
  {
    var w := Pair(c, Idle, Idle);
    assert Raced(w, 1) == Pair(c, Count, Idle);
    assert Raced(w, 2) == Pair(c.(streak := c.streak + 1), Recover, Idle);
    assert Raced(w, 3) == Pair(c.(streak := c.streak + 1), StoreSize(target), Idle);
    assert Raced(w, 4) == Pair(c.(streak := c.streak + 1, current := target), StoreReset(target), Idle);
  }

  lemma RaceReduces(w: Pair, c: Control)
    requires Raced(w, 5) == Pair(c, StoreRested, Idle) && c.current > BATCH_MIN && c.lastMs == 1
    ensures Raced(w, 12) ==
            Pair(c.(current := Halved(c.current), degraded := false, streak := 0, lastMs := 501), Idle, Idle)
    ensures forall i :: 5 <= i < 12 ==> MayAct(Raced(w, i), Race(i))
  {
    var half := c.(current := Halved(c.current));
    assert Raced(w, 6) == Pair(c, StoreRested, Retry(501));
    assert Raced(w, 7) == Pair(c, StoreRested, Exchange(501, c.current));
    assert Raced(w, 8) == Pair(half, StoreRested, WonDegrade(501));
    assert Raced(w, 9) == Pair(half.(degraded := true), StoreRested, WonReset(501));
    assert Raced(w, 10) == Pair(half.(degraded := true, streak := 0), StoreRested, WonStamp(501));
    assert Raced(w, 11) == Pair(half.(degraded := true, streak := 0, lastMs := 501), StoreRested, Idle);
  }

  lemma AlmostRun(target: nat, n: nat) returns (moves: seq<Move>, c: Control)
    requires target > BATCH_MIN && n >= 2
    ensures LatestRun(target, n, moves) && AlmostRecovered(c, target)
    ensures Stand(Run(target, n, moves), n, Pair(c, Idle, Idle))
  {
    var calls := ReachAlmost(target);
    moves := Realises(target, n, calls);
    NoOverlapIsSerial(target, n, moves);
    RunShape(target, n, moves);
    c := After(target, calls);
  }

  lemma StandBreaksLaw(s: State, n: nat, c: Control)
    requires Stand(s, n, Pair(c, Idle, Idle)) && !c.degraded && c.current != c.target
    ensures !FullUnlessDegraded(s)
  {
  }

  /**
   For any target above the floor, two threads can break the law: one finishes recovering, the other
   halves the size, and the first then clears the flag the second has just raised. Both have returned,
   and since success is ignored when not degraded, the half size stays until the next exhaustion.
   */
  lemma SmallButNotDegraded(target: nat, n: nat) returns (moves: seq<Move>)
    requires target > BATCH_MIN && n >= 2
    ensures LatestRun(target, n, moves) && !FullUnlessDegraded(Run(target, n, moves))
  {
    var before, c := AlmostRun(target, n);
    var w := Pair(c, Idle, Idle);
    RaceRecovers(c, target);
    RaceReduces(w, c.(current := target, streak := 0));
    moves := Play(target, n, before, w, 12);
    StandBreaksLaw(Run(target, n, moves), n, Raced(w, 12).c);
  }

  /**
   Between threads, exactly: idle and not degraded means full size in every run if and only if there
   is at most one thread or the target is the floor itself.
   */
  lemma FullSizeIff(target: nat, n: nat)
    requires target >= BATCH_MIN
    ensures (forall moves :: LatestRun(target, n, moves) ==> FullUnlessDegraded(Run(target, n, moves)))
            <==> n <= 1 || target == BATCH_MIN
  {
    if n <= 1 || target == BATCH_MIN {
      forall moves | LatestRun(target, n, moves)
        ensures FullUnlessDegraded(Run(target, n, moves))
      {
        if n <= 1 {
          OneThreadFull(target, n, moves);
        } else {
          FloorTargetFull(n, moves);
        }
      }
    } else {
      var moves := SmallButNotDegraded(target, n);
    }
  }
}
