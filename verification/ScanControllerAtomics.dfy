/**
 The controller called by any number of threads, one atomic access at a time. Every atomic is the
 sequence of values stored in it so far. A relaxed load may return any of them; a read-modify-write
 sees the latest. Sequentially consistent runs are the ones whose loads always pick the latest.
 */
module ScanControllerAtomics {
  import opened ScanController

  /** Where a thread stands; `now` is the clock it read on entry to `on_fd_exhaustion`. */
  datatype Pc =
    | Idle
    // on_fd_exhaustion
    | LimitedDegrade            // rate limited: about to store degraded
    | LimitedReset              // rate limited: about to reset the streak
    | Retry(now: nat)           // at the top of the exchange loop
    | Exchange(now: nat, seen: nat)
    | FloorDegrade
    | WonDegrade(now: nat)
    | WonReset(now: nat)
    | WonStamp(now: nat)
    // on_success
    | Count                     // about to fetch_add the streak
    | Recover                   // streak reached: about to load the size
    | StoreSize(size: nat)
    | StoreReset(size: nat)
    | StoreRested

  datatype State = State(
    target: nat,
    size: seq<nat>,
    degraded: seq<bool>,
    streak: seq<nat>,
    last: seq<nat>,
    threads: seq<Pc>)

  /** One atomic access by one thread. `pick` says which stored value a relaxed load returns. */
  datatype Move =
    | BeginExhaustion(thread: nat, now: nat, pick: nat)
    | BeginSuccess(thread: nat, pick: nat)
    | Continue(thread: nat, pick: nat)

  function Latest<T>(h: seq<T>): T
    requires h != []
  {
    h[|h| - 1]
  }

  function Start(target: nat, threads: nat): State {
    State(target, [target], [false], [0], [0], seq(threads, _ => Idle))
  }

  ghost predicate Stored(s: State) {
    s.size != [] && s.degraded != [] && s.streak != [] && s.last != []
  }

  function At(s: State, thread: nat, pc: Pc): State
    requires thread < |s.threads|
  {
    s.(threads := s.threads[thread := pc])
  }

  function Advance(s: State, thread: nat, pc: Pc, pick: nat): State
    requires Stored(s) && thread < |s.threads|
  {
    match pc
    case Idle => s
    case LimitedDegrade => At(s.(degraded := s.degraded + [true]), thread, LimitedReset)
    case LimitedReset => At(s.(streak := s.streak + [0]), thread, Idle)
    case Retry(now) =>
      if pick >= |s.size| then s
      else if s.size[pick] == BATCH_MIN then At(s, thread, FloorDegrade)
      else At(s, thread, Exchange(now, s.size[pick]))
    case Exchange(now, seen) =>
      if Latest(s.size) == seen then At(s.(size := s.size + [Halved(seen)]), thread, WonDegrade(now))
      else At(s, thread, Retry(now))
    case FloorDegrade => At(s.(degraded := s.degraded + [true]), thread, Idle)
    case WonDegrade(now) => At(s.(degraded := s.degraded + [true]), thread, WonReset(now))
    case WonReset(now) => At(s.(streak := s.streak + [0]), thread, WonStamp(now))
    case WonStamp(now) => At(s.(last := s.last + [Max(now, 1)]), thread, Idle)
    case Count =>
      var streak := Latest(s.streak) + 1;
      At(s.(streak := s.streak + [streak]), thread, if streak >= RECOVERY_THRESHOLD then Recover else Idle)
    case Recover =>
      if pick >= |s.size| then s
      else
        var size := Grown(s.size[pick], s.target);
        At(s, thread, if size > s.size[pick] then StoreSize(size) else Idle)
    case StoreSize(size) => At(s.(size := s.size + [size]), thread, StoreReset(size))
    case StoreReset(size) =>
      At(s.(streak := s.streak + [0]), thread, if size >= s.target then StoreRested else Idle)
    case StoreRested => At(s.(degraded := s.degraded + [false]), thread, Idle)
  }

  /** A move that is not possible leaves the state alone. */
  function Do(s: State, m: Move): State
    requires Stored(s)
  {
    if m.thread >= |s.threads| then s
    else
      var pc := s.threads[m.thread];
      match m
      case BeginExhaustion(thread, now, pick) =>
        if pc != Idle || pick >= |s.last| then s
        else if RateLimited(Control(0, 0, false, 0, s.last[pick]), now) then At(s, thread, LimitedDegrade)
        else At(s, thread, Retry(now))
      case BeginSuccess(thread, pick) =>
        if pc != Idle || pick >= |s.degraded| || !s.degraded[pick] then s else At(s, thread, Count)
      case Continue(thread, pick) => Advance(s, thread, pc, pick)
  }

  lemma DoKeepsStored(s: State, m: Move)
    requires Stored(s)
    ensures Stored(Do(s, m))
  {
  }

  function Run(target: nat, threads: nat, moves: seq<Move>): (s: State)
    ensures Stored(s)
  {
    if moves == [] then Start(target, threads)
    else
      var before := Run(target, threads, moves[..|moves| - 1]);
      DoKeepsStored(before, moves[|moves| - 1]);
      Do(before, moves[|moves| - 1])
  }

  // ----- the bounds, in every interleaving -----

  predicate InRange(s: State, v: nat) {
    BATCH_MIN <= v <= s.target
  }

  /** Sizes in flight inside a thread are in range too, however stale they are. */
  predicate LocalsInRange(s: State, pc: Pc) {
    match pc
    case Exchange(_, seen) => InRange(s, seen)
    case StoreSize(size) => InRange(s, size)
    case _ => true
  }

  ghost predicate Inv(s: State) {
    && Stored(s)
    && s.target >= BATCH_MIN
    && (forall i :: 0 <= i < |s.size| ==> InRange(s, s.size[i]))
    && (forall i :: 0 <= i < |s.threads| ==> LocalsInRange(s, s.threads[i]))
  }

  lemma AtKeepsInv(s: State, thread: nat, pc: Pc)
    requires Inv(s) && thread < |s.threads| && LocalsInRange(s, pc)
    ensures Inv(At(s, thread, pc))
  {
  }

  lemma StoreKeepsInv(s: State, size: nat)
    requires Inv(s) && InRange(s, size)
    ensures Inv(s.(size := s.size + [size]))
  {
  }

  /** A store to any of the other atomics touches no size. */
  lemma OthersKeepInv(s: State, degraded: seq<bool>, streak: seq<nat>, last: seq<nat>)
    requires Inv(s) && degraded != [] && streak != [] && last != []
    ensures Inv(s.(degraded := degraded, streak := streak, last := last))
  {
  }

  lemma AdvanceKeepsInv(s: State, thread: nat, pick: nat)
    requires Inv(s) && thread < |s.threads|
    ensures Inv(Advance(s, thread, s.threads[thread], pick))
    ensures Advance(s, thread, s.threads[thread], pick).target == s.target
  {
    var r := Advance(s, thread, s.threads[thread], pick);
    var t := s.(size := r.size);
    if r.size != s.size {
      StoreKeepsInv(s, Latest(r.size));
      assert r.size == s.size + [Latest(r.size)];
    } else {
      assert t == s;
    }
    OthersKeepInv(t, r.degraded, r.streak, r.last);
    if s.threads[thread] == Recover && pick < |s.size| {
      GrowsByFour(s.size[pick], s.target);
    }
    if r != s {
      AtKeepsInv(t.(degraded := r.degraded, streak := r.streak, last := r.last), thread, r.threads[thread]);
    }
  }

  lemma DoKeepsInv(s: State, m: Move)
    requires Inv(s)
    ensures Inv(Do(s, m)) && Do(s, m).target == s.target
  {
    if m.thread < |s.threads| {
      match m {
        case Continue(thread, pick) => AdvanceKeepsInv(s, thread, pick);
        case BeginExhaustion(thread, now, _) =>
          AtKeepsInv(s, thread, LimitedDegrade);
          AtKeepsInv(s, thread, Retry(now));
        case BeginSuccess(thread, _) => AtKeepsInv(s, thread, Count);
      }
    }
  }

  lemma {:induction false} RunInv(target: nat, threads: nat, moves: seq<Move>)
    requires target >= BATCH_MIN
    ensures Stored(Run(target, threads, moves)) && Inv(Run(target, threads, moves))
    ensures Run(target, threads, moves).target == target
  {
    if moves != [] {
      RunInv(target, threads, moves[..|moves| - 1]);
      DoKeepsInv(Run(target, threads, moves[..|moves| - 1]), moves[|moves| - 1]);
    }
  }

  /**
   For any number of threads and any interleaving of their loads, stores and exchanges, stale loads
   included, every batch size ever stored, and so every size a scan can read, lies between the floor
   and the target.
   */
  lemma SizesAlwaysInRange(target: nat, threads: nat, moves: seq<Move>, i: nat)
    requires target >= BATCH_MIN
    requires i < |Run(target, threads, moves).size|
    ensures BATCH_MIN <= Run(target, threads, moves).size[i] <= target
  {
    RunInv(target, threads, moves);
  }
}
