/**
 The discovery session manager. Its two cells (the current task's handle and the cancellation token)
 sit behind separate locks, so every lock section below is one step that others can fall between.
 An actor is whoever calls the manager: actor 0 is the work-request loop, the others are request
 handlers, any number of them. The router's mode gate decides which of them get to act.
 */
module SessionManager {
  import opened Wrappers
  import opened Modes

  type TaskId = nat
  type Token = nat

  datatype Route = Health | Initialize | Status | FirstContact | Poll | EntitiesCreated | Initiate | Cancel

  /** The mode gate of `create_router`. */
  predicate Serves(mode: Mode, route: Route) {
    route.Health? || route.Initialize? || mode.ServerPoll?
  }

  /** A spawned session: running, about to call `clear_completed_task`, returned from it, or finished. */
  datatype Stage = Working | Clearing | Leaving | Finished
  datatype Task = Task(token: Token, stage: Stage)

  datatype Actor =
    | Waiting
    | Reported(ready: bool)                // told the server whether it may send work
    | Cancelling(work: bool)               // about to look for a session to cancel
    | Signalling(saw: TaskId, work: bool)  // saw that session running, about to cancel the token
    | Start0                               // about to install a new token
    | Start1                               // about to drop the old handle
    | Start2                               // about to read the token back
    | Start3(token: Token)                 // about to spawn
    | Spawned(task: TaskId)                // about to store the handle

  /** Tokens are numbered; `tokens` is how many exist. */
  datatype Sys = Sys(
    mode: Mode,
    handle: Option<TaskId>,
    token: Token,
    tokens: nat,
    cancelled: set<Token>,
    tasks: seq<Task>,
    actors: seq<Actor>)

  predicate Unfinished(s: Sys, i: TaskId) {
    i < |s.tasks| && s.tasks[i].stage != Finished
  }

  /** `is_discovery_running`: the stored handle exists and has not finished. */
  predicate Running(s: Sys) {
    s.handle.Some? && Unfinished(s, s.handle.value)
  }

  function Start(mode: Mode, handlers: nat): Sys {
    Sys(mode, None, 0, 1, {}, [], seq(handlers + 1, _ => Waiting))
  }

  // ----- lock sections -----

  function InstallToken(s: Sys): Sys {
    s.(token := s.tokens, tokens := s.tokens + 1)
  }

  function DropHandle(s: Sys): Sys {
    s.(handle := None)
  }

  function StoreHandle(s: Sys, t: TaskId): Sys {
    s.(handle := Some(t))
  }

  function Signal(s: Sys): Sys {
    s.(cancelled := s.cancelled + {s.token})
  }

  function ClearCompleted(s: Sys): Sys {
    if s.handle.Some? && !Running(s) then DropHandle(InstallToken(s)) else s
  }

  /**
   The manager's two cells, with the tokens made and cancelled so far. A call that is not interrupted
   takes the system `world` it runs in, whose tasks decide which handles have finished.
   */
  class Manager {
    var handle: Option<TaskId>
    var token: Token
    var tokens: nat
    var cancelled: set<Token>

    /** The system with this manager's cells in it. */
    ghost function In(world: Sys): Sys
      reads this
    {
      world.(handle := handle, token := token, tokens := tokens, cancelled := cancelled)
    }

    constructor ()
      ensures handle == None && token == 0 && tokens == 1 && cancelled == {}
      ensures forall mode, handlers: nat :: In(Start(mode, handlers)) == Start(mode, handlers)
    {
      handle, token, tokens, cancelled := None, 0, 1, {};
    }

    method IsDiscoveryRunning(world: Sys) returns (running: bool)
      ensures running == Running(In(world))
      ensures running <==> handle.Some? && handle.value < |world.tasks| && world.tasks[handle.value].stage != Finished
    {
      match handle {
        case Some(t) => running := t < |world.tasks| && world.tasks[t].stage != Finished;
        case None => running := false;
      }
    }

    method NewToken()
      modifies this`token, this`tokens
      ensures token == old(tokens) && tokens == old(tokens) + 1
    {
      token := tokens;
      tokens := tokens + 1;
    }

    /** The three lock sections of a new session. */
    method StartNewSession(ghost world: Sys) returns (own: Token)
      modifies this`token, this`tokens, this`handle
      ensures In(world) == DropHandle(InstallToken(old(In(world))))
      ensures own == token == old(tokens) && tokens == old(tokens) + 1 && handle == None
    {
      NewToken();
      handle := None;
      own := token;
    }

    method SetCurrentTask(t: TaskId, ghost world: Sys)
      modifies this`handle
      ensures In(world) == StoreHandle(old(In(world)), t) && handle == Some(t)
    {
      handle := Some(t);
    }

    /** Spawns a session with a token of its own unless one is running. */
    method TryInitiateSession(world: Sys) returns (spawned: Option<Task>)
      modifies this`token, this`tokens, this`handle
      ensures spawned.None? <==> old(Running(In(world)))
      ensures spawned.None? ==> In(world) == old(In(world))
      ensures spawned.Some? ==>
                && spawned.value == Task(old(tokens), Working)
                && In(world) == StoreHandle(InstallToken(old(In(world))), |world.tasks|)
                && Running(In(world.(tasks := world.tasks + [spawned.value])))
    {
      var running := IsDiscoveryRunning(world);
      if running {
        return None;
      }
      var own := StartNewSession(world);
      SetCurrentTask(|world.tasks|, world);
      spawned := Some(Task(own, Working));
    }

    method CancelCurrentSession(world: Sys) returns (signalled: bool)
      modifies this`cancelled
      ensures signalled == Running(old(In(world)))
      ensures In(world) == if signalled then Signal(old(In(world))) else old(In(world))
      ensures cancelled == old(cancelled) + if signalled then {token} else {}
    {
      signalled := IsDiscoveryRunning(world);
      if !signalled {
        return;
      }
      cancelled := cancelled + {token};
    }

    method ClearCompletedTask(world: Sys)
      modifies this`token, this`tokens, this`handle
      ensures In(world) == ClearCompleted(old(In(world)))
      ensures if old(handle.Some?) && !old(Running(In(world)))
              then handle == None && token == old(tokens) && tokens == old(tokens) + 1
              else handle == old(handle) && token == old(token) && tokens == old(tokens)
    {
      if handle.Some? {
        var running := IsDiscoveryRunning(world);
        if !running {
          NewToken();
          handle := None;
        }
      }
    }
  }

  // ----- interleaved runs -----

  datatype Move =
    | Report                           // the loop reads readiness and polls
    | Answer(work: bool, cancel: bool) // the server's reply reaches the loop
    | Request(actor: nat)              // a handler is asked to initiate
    | RequestCancel(actor: nat)        // a handler is asked to cancel
    | Continue(actor: nat)
    | FailTask(task: TaskId)           // a failing session cancels its own token
    | AdvanceTask(task: TaskId)

  function At(s: Sys, a: nat, pc: Actor): Sys
    requires a < |s.actors|
  {
    s.(actors := s.actors[a := pc])
  }

  function Then(work: bool): Actor {
    if work then Start0 else Waiting
  }

  predicate IsHandler(s: Sys, a: nat) {
    1 <= a < |s.actors|
  }

  /** A handler's request passes the gate and the running check. */
  predicate Admits(s: Sys, a: nat) {
    IsHandler(s, a) && Serves(s.mode, Initiate) && s.actors[a].Waiting? && !Running(s)
  }

  function ContinueStep(s: Sys, a: nat): Sys
    requires a < |s.actors|
  {
    match s.actors[a]
    case Waiting => s
    case Reported(_) => s
    case Cancelling(work) => At(s, a, if Running(s) then Signalling(s.handle.value, work) else Then(work))
    case Signalling(_, work) => At(Signal(s), a, Then(work))
    case Start0 => At(InstallToken(s), a, Start1)
    case Start1 => At(DropHandle(s), a, Start2)
    case Start2 => At(s, a, Start3(s.token))
    case Start3(token) => At(s.(tasks := s.tasks + [Task(token, Working)]), a, Spawned(|s.tasks|))
    case Spawned(t) => At(StoreHandle(s, t), a, Waiting)
  }

  function AdvanceTaskStep(s: Sys, i: TaskId): Sys
    requires Unfinished(s, i)
  {
    var t := s.tasks[i];
    match t.stage
    case Working =>
      s.(tasks := s.tasks[i := t.(stage := if t.token in s.cancelled then Leaving else Clearing)])
    case Clearing =>
      var c := ClearCompleted(s);
      c.(tasks := s.tasks[i := t.(stage := Leaving)])
    case Leaving => s.(tasks := s.tasks[i := t.(stage := Finished)])
  }

  function Do(s: Sys, m: Move): Sys {
    match m
    case FailTask(i) =>
      if i < |s.tasks| && s.tasks[i].stage == Working then s.(cancelled := s.cancelled + {s.tasks[i].token}) else s
    case AdvanceTask(i) => if Unfinished(s, i) then AdvanceTaskStep(s, i) else s
    case Report =>
      if s.actors != [] && s.mode.DaemonPoll? && s.actors[0].Waiting? then At(s, 0, Reported(!Running(s))) else s
    case Answer(work, cancel) =>
      // The server sends work only to a daemon that reported itself ready.
      if s.actors != [] && s.actors[0].Reported? && (work ==> s.actors[0].ready)
      then At(s, 0, if cancel then Cancelling(work) else Then(work)) else s
    case Request(a) => if Admits(s, a) then At(s, a, Start0) else s
    case RequestCancel(a) =>
      if IsHandler(s, a) && Serves(s.mode, Cancel) && s.actors[a].Waiting? then At(s, a, Cancelling(false)) else s
    case Continue(a) => if a < |s.actors| then ContinueStep(s, a) else s
  }

  function Run(mode: Mode, handlers: nat, moves: seq<Move>): Sys {
    if moves == [] then Start(mode, handlers)
    else Do(Run(mode, handlers, moves[..|moves| - 1]), moves[|moves| - 1])
  }

  // ----- who acts in which mode -----

  /**
   In DaemonPoll mode the handlers wait for ever; in ServerPoll mode the loop does, and nobody cancels
   before working.
   */
  predicate PlaysRole(mode: Mode, a: nat, pc: Actor) {
    if mode.DaemonPoll? then a > 0 ==> pc == Waiting
    else (a == 0 ==> pc == Waiting) && !pc.Reported? && !(pc.Cancelling? && pc.work) && !(pc.Signalling? && pc.work)
  }

  ghost predicate Roles(s: Sys, mode: Mode, handlers: nat) {
    && s.mode == mode && |s.actors| == handlers + 1
    && (forall a :: 0 <= a < |s.actors| ==> PlaysRole(mode, a, s.actors[a]))
    && (forall a :: 0 <= a < |s.actors| && s.actors[a].Spawned? ==> s.actors[a].task < |s.tasks|)
  }

  lemma DoKeepsRoles(s: Sys, m: Move, mode: Mode, handlers: nat)
    requires Roles(s, mode, handlers)
    ensures Roles(Do(s, m), mode, handlers)
  {
  }

  lemma {:induction false} RunRoles(mode: Mode, handlers: nat, moves: seq<Move>)
    ensures Roles(Run(mode, handlers, moves), mode, handlers)
  {
    if moves != [] {
      RunRoles(mode, handlers, moves[..|moves| - 1]);
      DoKeepsRoles(Run(mode, handlers, moves[..|moves| - 1]), moves[|moves| - 1], mode, handlers);
    }
  }

  // ----- runs in which no session starts while another is starting -----

  /** The actor has established that nothing is running and will start a session. */
  predicate Committed(pc: Actor) {
    (pc.Reported? && pc.ready) || (pc.Cancelling? && pc.work) || (pc.Signalling? && pc.work)
    || pc.Start0? || pc.Start1? || pc.Start2? || pc.Start3?
  }

  /** It will start a session, or has spawned one and not stored its handle. */
  predicate Busy(pc: Actor) {
    Committed(pc) || pc.Spawned?
  }

  ghost predicate NoneBusy(s: Sys) {
    forall a :: 0 <= a < |s.actors| ==> !Busy(s.actors[a])
  }

  /** No request is admitted while another actor is starting a session. */
  ghost predicate Exclusive(mode: Mode, handlers: nat, moves: seq<Move>) {
    forall k :: 0 <= k < |moves| && moves[k].Request? && Admits(Run(mode, handlers, moves[..k]), moves[k].actor) ==>
      NoneBusy(Run(mode, handlers, moves[..k]))
  }

  ghost predicate NoneUnfinished(s: Sys) {
    forall i :: 0 <= i < |s.tasks| ==> s.tasks[i].stage == Finished
  }

  ghost predicate FreshToken(s: Sys, token: Token) {
    forall i :: 0 <= i < |s.tasks| ==> s.tasks[i].token != token
  }

  ghost predicate TokensOk(s: Sys) {
    && s.token < s.tokens
    && (forall i :: 0 <= i < |s.tasks| ==> s.tasks[i].token < s.tokens)
    && (forall i, j :: 0 <= i < j < |s.tasks| ==> s.tasks[i].token != s.tasks[j].token)
  }

  ghost predicate SpawnedBy(s: Sys, i: TaskId) {
    exists a :: 0 <= a < |s.actors| && s.actors[a] == Spawned(i)
  }

  /** An unfinished task owns the token cell, and the handle cell holds it or is about to. */
  ghost predicate Owned(s: Sys) {
    forall i :: 0 <= i < |s.tasks| && s.tasks[i].stage != Finished ==>
      s.token == s.tasks[i].token && (s.handle == Some(i) || (s.handle == None && SpawnedBy(s, i)))
  }

  ghost predicate OneBusy(s: Sys) {
    forall a, b :: 0 <= a < |s.actors| && 0 <= b < |s.actors| && Busy(s.actors[a]) && Busy(s.actors[b]) ==> a == b
  }

  /** What an actor may rely on where it stands. */
  ghost predicate ActorOk(s: Sys, pc: Actor) {
    && (Committed(pc) ==> NoneUnfinished(s))
    && (pc.Signalling? ==> !pc.work && pc.saw < |s.tasks| && (s.mode.DaemonPoll? ==> s.token == s.tasks[pc.saw].token))
    && (pc.Start1? || pc.Start2? || pc.Start3? ==> FreshToken(s, s.token))
    && (pc.Start2? || pc.Start3? ==> s.handle == None)
    && (pc.Start3? ==> pc.token == s.token)
    && (pc.Spawned? ==> pc.task < |s.tasks| && s.handle == None && s.token == s.tasks[pc.task].token)
  }

  ghost predicate Inv(s: Sys) {
    && s.actors != []
    && Roles(s, s.mode, |s.actors| - 1)
    && TokensOk(s) && Owned(s) && OneBusy(s)
    && (forall a :: 0 <= a < |s.actors| ==> ActorOk(s, s.actors[a]))
  }

  /** Actor `a` moves from one busy stand to another, or in or out of it; the others keep theirs. */
  ghost predicate OthersKept(s: Sys, r: Sys, a: nat) {
    && a < |s.actors| == |r.actors| && r.mode == s.mode && |s.tasks| <= |r.tasks|
    && forall b :: 0 <= b < |s.actors| && b != a ==> r.actors[b] == s.actors[b]
  }

  lemma Assemble(s: Sys, r: Sys, a: nat)
    requires Inv(s) && OthersKept(s, r, a) && Busy(s.actors[a])
    requires TokensOk(r) && Owned(r) && ActorOk(r, r.actors[a]) && Roles(r, r.mode, |r.actors| - 1)
    ensures Inv(r)
  {
  }

  lemma CellsFree(s: Sys)
    requires NoneUnfinished(s)
    ensures Owned(s)
  {
  }

  lemma StartStepKeepsInv(s: Sys, a: nat)
    requires Inv(s) && a < |s.actors| && (s.actors[a].Start0? || s.actors[a].Start1? || s.actors[a].Start2?)
    ensures Inv(ContinueStep(s, a))
  {
    var r := ContinueStep(s, a);
    assert ActorOk(s, s.actors[a]);
    CellsFree(r);
    Assemble(s, r, a);
  }

  lemma SpawnStepKeepsInv(s: Sys, a: nat)
    requires Inv(s) && a < |s.actors| && s.actors[a].Start3?
    ensures Inv(ContinueStep(s, a))
  {
    var r := ContinueStep(s, a);
    assert ActorOk(s, s.actors[a]);
    assert r.actors[a] == Spawned(|s.tasks|);
    assert SpawnedBy(r, |s.tasks|);
    Assemble(s, r, a);
  }

  lemma StoreStepKeepsInv(s: Sys, a: nat)
    requires Inv(s) && a < |s.actors| && s.actors[a].Spawned?
    ensures Inv(ContinueStep(s, a))
  {
    var r, t := ContinueStep(s, a), s.actors[a].task;
    assert ActorOk(s, s.actors[a]);
    forall i | 0 <= i < |s.tasks| && s.tasks[i].stage != Finished
      ensures i == t
    {
      assert SpawnedBy(s, i);
    }
    Assemble(s, r, a);
  }

  /** Moves that leave cells and tasks alone and make nobody busy who was not. */
  lemma StandElsewhere(s: Sys, a: nat, pc: Actor)
    requires Inv(s) && a < |s.actors| && !s.actors[a].Spawned?
    requires ActorOk(s, pc) && PlaysRole(s.mode, a, pc) && !pc.Spawned?
    requires Busy(pc) ==> forall b :: 0 <= b < |s.actors| && b != a ==> !Busy(s.actors[b])
    ensures Inv(At(s, a, pc))
  {
    var r := At(s, a, pc);
    forall i | 0 <= i < |s.tasks| && s.tasks[i].stage != Finished && s.handle == None
      ensures SpawnedBy(r, i)
    {
      var b :| 0 <= b < |s.actors| && s.actors[b] == Spawned(i);
      assert r.actors[b] == Spawned(i);
    }
  }

  lemma SignalKeepsInv(s: Sys, token: Token)
    requires Inv(s)
    ensures Inv(s.(cancelled := s.cancelled + {token}))
  {
  }

  lemma CancelStepKeepsInv(s: Sys, a: nat)
    requires Inv(s) && a < |s.actors| && (s.actors[a].Cancelling? || s.actors[a].Signalling?)
    ensures Inv(ContinueStep(s, a))
  {
    var pc := s.actors[a];
    assert ActorOk(s, pc) && PlaysRole(s.mode, a, pc);
    if pc.Cancelling? {
      StandElsewhere(s, a, if Running(s) then Signalling(s.handle.value, pc.work) else Then(pc.work));
    } else {
      SignalKeepsInv(s, s.token);
      StandElsewhere(Signal(s), a, Waiting);
    }
  }

  lemma ContinueKeepsInv(s: Sys, a: nat)
    requires Inv(s) && a < |s.actors|
    ensures Inv(ContinueStep(s, a))
  {
    match s.actors[a] {
      case Cancelling(_) => CancelStepKeepsInv(s, a);
      case Signalling(_, _) => CancelStepKeepsInv(s, a);
      case Start0 => StartStepKeepsInv(s, a);
      case Start1 => StartStepKeepsInv(s, a);
      case Start2 => StartStepKeepsInv(s, a);
      case Start3(_) => SpawnStepKeepsInv(s, a);
      case Spawned(_) => StoreStepKeepsInv(s, a);
      case _ =>
    }
  }

  lemma ClearDoesNothing(s: Sys, i: TaskId)
    requires Inv(s) && Unfinished(s, i)
    ensures ClearCompleted(s) == s
  {
  }

  lemma TaskStepKeepsInv(s: Sys, i: TaskId, t: Task)
    requires Inv(s) && Unfinished(s, i) && t.token == s.tasks[i].token
    ensures Inv(s.(tasks := s.tasks[i := t]))
  {
  }

  lemma AdvanceKeepsInv(s: Sys, i: TaskId)
    requires Inv(s) && Unfinished(s, i)
    ensures Inv(AdvanceTaskStep(s, i))
  {
    ClearDoesNothing(s, i);
    var t := s.tasks[i];
    TaskStepKeepsInv(s, i, t.(stage := if t.token in s.cancelled then Leaving else Clearing));
    TaskStepKeepsInv(s, i, t.(stage := Leaving));
    TaskStepKeepsInv(s, i, t.(stage := Finished));
  }

  /** With nobody starting a session, the handle cell tells the truth. */
  lemma IdleMeansNoneUnfinished(s: Sys)
    requires Inv(s) && (forall a :: 0 <= a < |s.actors| ==> !s.actors[a].Spawned?)
    ensures Running(s) <==> !NoneUnfinished(s)
  {
  }

  lemma LoopOnly(s: Sys)
    requires Inv(s) && s.mode.DaemonPoll?
    ensures forall a :: 1 <= a < |s.actors| ==> s.actors[a] == Waiting
  {
  }

  lemma ReportKeepsInv(s: Sys)
    requires Inv(s)
    ensures Inv(Do(s, Report))
  {
    if s.mode.DaemonPoll? && s.actors[0].Waiting? {
      LoopOnly(s);
      IdleMeansNoneUnfinished(s);
      StandElsewhere(s, 0, Reported(!Running(s)));
    }
  }

  lemma AnswerKeepsInv(s: Sys, work: bool, cancel: bool)
    requires Inv(s)
    ensures Inv(Do(s, Answer(work, cancel)))
  {
    if s.actors[0].Reported? && (work ==> s.actors[0].ready) {
      assert ActorOk(s, s.actors[0]) && PlaysRole(s.mode, 0, s.actors[0]);
      LoopOnly(s);
      StandElsewhere(s, 0, if cancel then Cancelling(work) else Then(work));
    }
  }

  lemma RequestKeepsInv(s: Sys, a: nat)
    requires Inv(s) && (Admits(s, a) ==> NoneBusy(s))
    ensures Inv(Do(s, Request(a)))
  {
  }

  lemma RequestCancelKeepsInv(s: Sys, a: nat)
    requires Inv(s)
    ensures Inv(Do(s, RequestCancel(a)))
  {
    if IsHandler(s, a) && Serves(s.mode, Cancel) && s.actors[a].Waiting? {
      StandElsewhere(s, a, Cancelling(false));
    }
  }

  lemma DoKeepsInv(s: Sys, m: Move)
    requires Inv(s) && (m.Request? && Admits(s, m.actor) ==> NoneBusy(s))
    ensures Inv(Do(s, m))
  {
    match m {
      case AdvanceTask(i) =>
        if Unfinished(s, i) {
          AdvanceKeepsInv(s, i);
        }
      case Continue(a) =>
        if a < |s.actors| {
          ContinueKeepsInv(s, a);
        }
      case Report => ReportKeepsInv(s);
      case Request(a) => RequestKeepsInv(s, a);
      case RequestCancel(a) => RequestCancelKeepsInv(s, a);
      case Answer(work, cancel) => AnswerKeepsInv(s, work, cancel);
      case FailTask(i) =>
        if i < |s.tasks| {
          SignalKeepsInv(s, s.tasks[i].token);
        }
    }
  }

  lemma StartInv(mode: Mode, handlers: nat)
    ensures Inv(Start(mode, handlers))
  {
  }

  lemma ExclusiveFront(mode: Mode, handlers: nat, moves: seq<Move>)
    requires Exclusive(mode, handlers, moves) && moves != []
    ensures Exclusive(mode, handlers, moves[..|moves| - 1])
    ensures
      var front, m := moves[..|moves| - 1], moves[|moves| - 1];
      m.Request? && Admits(Run(mode, handlers, front), m.actor) ==> NoneBusy(Run(mode, handlers, front))
  {
    var front := moves[..|moves| - 1];
    forall k | 0 <= k < |front|
      ensures front[..k] == moves[..k] && front[k] == moves[k]
    {
    }
  }

  lemma {:induction false} RunInv(mode: Mode, handlers: nat, moves: seq<Move>)
    requires Exclusive(mode, handlers, moves)
    ensures Inv(Run(mode, handlers, moves))
  {
    if moves == [] {
      StartInv(mode, handlers);
    } else {
      ExclusiveFront(mode, handlers, moves);
      RunInv(mode, handlers, moves[..|moves| - 1]);
      DoKeepsInv(Run(mode, handlers, moves[..|moves| - 1]), moves[|moves| - 1]);
    }
  }

  // ----- single session -----

  ghost predicate AtMostOne(s: Sys) {
    forall i: TaskId, j: TaskId :: Unfinished(s, i) && Unfinished(s, j) ==> i == j
  }

  lemma InvSingle(s: Sys)
    requires Inv(s)
    ensures AtMostOne(s)
    ensures forall i: TaskId :: Unfinished(s, i) ==> s.token == s.tasks[i].token
  {
  }

  /**
   In every run in which no request is admitted while another actor is starting a session, at most one
   session task is ever unfinished, the manager's token is that task's, and no other task ever had it.
   */
  lemma SingleSession(mode: Mode, handlers: nat, moves: seq<Move>, i: TaskId, j: TaskId)
    requires Exclusive(mode, handlers, moves)
    requires
      var s := Run(mode, handlers, moves);
      Unfinished(s, i) && j < |s.tasks|
    ensures
      var s := Run(mode, handlers, moves);
      && (Unfinished(s, j) ==> i == j)
      && s.token == s.tasks[i].token
      && (s.tasks[j].token == s.token ==> i == j)
  {
    RunInv(mode, handlers, moves);
    InvSingle(Run(mode, handlers, moves));
  }

  /** The router's gate makes every DaemonPoll run such a run, however many handlers there are. */
  lemma DaemonPollIsExclusive(handlers: nat, moves: seq<Move>)
    ensures Exclusive(DaemonPoll, handlers, moves)
  {
    forall k | 0 <= k < |moves| && moves[k].Request?
      ensures !Admits(Run(DaemonPoll, handlers, moves[..k]), moves[k].actor)
    {
      RunRoles(DaemonPoll, handlers, moves[..k]);
    }
  }

  lemma DaemonPollSingleSession(handlers: nat, moves: seq<Move>)
    ensures AtMostOne(Run(DaemonPoll, handlers, moves))
  {
    DaemonPollIsExclusive(handlers, moves);
    RunInv(DaemonPoll, handlers, moves);
    InvSingle(Run(DaemonPoll, handlers, moves));
  }

  function WithHandlers(s: Sys, handlers: nat): Sys {
    s.(actors := s.actors + seq(handlers, _ => Waiting))
  }

  lemma StandBesideHandlers(s: Sys, handlers: nat, pc: Actor)
    requires |s.actors| == 1
    ensures At(WithHandlers(s, handlers), 0, pc) == WithHandlers(At(s, 0, pc), handlers)
  {
  }

  lemma ContinueIgnoresHandlers(s: Sys, handlers: nat)
    requires |s.actors| == 1
    ensures ContinueStep(WithHandlers(s, handlers), 0) == WithHandlers(ContinueStep(s, 0), handlers)
  {
    var r := ContinueStep(s, 0);
    StandBesideHandlers(r.(actors := s.actors), handlers, r.actors[0]);
    assert s.actors[0 := s.actors[0]] == s.actors;
  }

  lemma LoopIgnoresHandlers(s: Sys, handlers: nat, m: Move)
    requires s.mode == DaemonPoll && |s.actors| == 1 && (m.Report? || m.Answer?)
    ensures Do(WithHandlers(s, handlers), m) == WithHandlers(Do(s, m), handlers)
  {
    match m {
      case Report => StandBesideHandlers(s, handlers, Reported(!Running(s)));
      case Answer(work, cancel) => StandBesideHandlers(s, handlers, if cancel then Cancelling(work) else Then(work));
    }
  }

  lemma TaskIgnoresHandlers(s: Sys, handlers: nat, m: Move)
    requires m.FailTask? || m.AdvanceTask?
    ensures Do(WithHandlers(s, handlers), m) == WithHandlers(Do(s, m), handlers)
  {
  }

  /** Handlers that wait cannot act: the gate serves neither of their routes. */
  lemma GateIgnoresHandlers(s: Sys, handlers: nat, m: Move)
    requires s.mode == DaemonPoll && |s.actors| == 1
    requires m.Request? || m.RequestCancel? || (m.Continue? && m.actor > 0)
    ensures Do(WithHandlers(s, handlers), m) == WithHandlers(s, handlers) && Do(s, m) == s
  {
  }

  lemma StepIgnoresHandlers(s: Sys, handlers: nat, m: Move)
    requires s.mode == DaemonPoll && |s.actors| == 1
    ensures Do(WithHandlers(s, handlers), m) == WithHandlers(Do(s, m), handlers)
  {
    match m {
      case Continue(a) =>
        if a == 0 {
          ContinueIgnoresHandlers(s, handlers);
        } else {
          GateIgnoresHandlers(s, handlers, m);
        }
      case Request(_) => GateIgnoresHandlers(s, handlers, m);
      case RequestCancel(_) => GateIgnoresHandlers(s, handlers, m);
      case FailTask(_) => TaskIgnoresHandlers(s, handlers, m);
      case AdvanceTask(_) => TaskIgnoresHandlers(s, handlers, m);
      case _ => LoopIgnoresHandlers(s, handlers, m);
    }
  }

  /** A DaemonPoll daemon with handlers does, move for move, what it does without: no request can touch the manager. */
  lemma {:induction false} DaemonPollIgnoresHandlers(handlers: nat, moves: seq<Move>)
    ensures Run(DaemonPoll, handlers, moves) == WithHandlers(Run(DaemonPoll, 0, moves), handlers)
  {
    if moves == [] {
      assert Start(DaemonPoll, handlers).actors == [Waiting] + seq(handlers, _ => Waiting);
      assert Start(DaemonPoll, 0).actors == [Waiting];
    } else {
      var front := moves[..|moves| - 1];
      DaemonPollIgnoresHandlers(handlers, front);
      RunRoles(DaemonPoll, 0, front);
      StepIgnoresHandlers(Run(DaemonPoll, 0, front), handlers, moves[|moves| - 1]);
    }
  }

  /** Readiness is reported to the server exactly when no session task is unfinished. */
  lemma ReportedReadyIff(handlers: nat, moves: seq<Move>)
    requires Run(DaemonPoll, handlers, moves).actors != [] && Run(DaemonPoll, handlers, moves).actors[0] == Waiting
    ensures
      var s := Run(DaemonPoll, handlers, moves);
      Do(s, Report).actors == s.actors[0 := Reported(NoneUnfinished(s))]
  {
    DaemonPollIsExclusive(handlers, moves);
    RunInv(DaemonPoll, handlers, moves);
    RunRoles(DaemonPoll, handlers, moves);
    var s := Run(DaemonPoll, handlers, moves);
    LoopOnly(s);
    IdleMeansNoneUnfinished(s);
  }

  lemma SignalHits(s: Sys, a: nat, j: TaskId)
    requires Inv(s) && a < |s.actors| && s.actors[a].Signalling? && j < |s.tasks|
    requires s.mode.DaemonPoll? || Unfinished(s, s.actors[a].saw)
    ensures
      var r, saw := Do(s, Continue(a)), s.actors[a].saw;
      && saw < |s.tasks| && r.tasks == s.tasks
      && r.cancelled == s.cancelled + {s.tasks[saw].token}
      && (s.tasks[j].token in r.cancelled <==> j == saw || s.tasks[j].token in s.cancelled)
      && (Unfinished(s, j) ==> Unfinished(s, saw) ==> j == saw)
  {
    assert ActorOk(s, s.actors[a]);
    InvSingle(s);
  }

  /**
   A cancellation signal cancels exactly the session its caller saw running, always in DaemonPoll mode
   and otherwise while that session lasts; every other session's token is left as it was.
   */
  lemma SignalHitsWhatItSaw(mode: Mode, handlers: nat, moves: seq<Move>, a: nat, j: TaskId)
    requires Exclusive(mode, handlers, moves) && a < |Run(mode, handlers, moves).actors|
    requires Run(mode, handlers, moves).actors[a].Signalling? && j < |Run(mode, handlers, moves).tasks|
    requires mode == DaemonPoll || Unfinished(Run(mode, handlers, moves), Run(mode, handlers, moves).actors[a].saw)
    ensures
      var s := Run(mode, handlers, moves);
      var r, saw := Do(s, Continue(a)), s.actors[a].saw;
      && saw < |s.tasks| && r.tasks == s.tasks
      && r.cancelled == s.cancelled + {s.tasks[saw].token}
      && (s.tasks[j].token in r.cancelled <==> j == saw || s.tasks[j].token in s.cancelled)
      && (Unfinished(s, j) ==> Unfinished(s, saw) ==> j == saw)
  {
    RunInv(mode, handlers, moves);
    RunRoles(mode, handlers, moves);
    SignalHits(Run(mode, handlers, moves), a, j);
  }

  lemma SignalHitsOwner(s: Sys, a: nat, j: TaskId)
    requires Inv(s) && a < |s.actors| && s.actors[a].Signalling? && j < |s.tasks| && s.tasks[j].token !in s.cancelled
    ensures
      var r, saw := Do(s, Continue(a)), s.actors[a].saw;
      && saw < |s.tasks| && r.tasks == s.tasks
      && (s.tasks[j].token in r.cancelled <==> s.token == s.tasks[j].token)
      && (s.token == s.tasks[saw].token ==> (s.tasks[j].token in r.cancelled <==> j == saw))
  {
    assert ActorOk(s, s.actors[a]);
  }

  /**
   In any mode, also after the seen session has ended: a session not cancelled before, the seen one or
   another, is cancelled by the signal if and only if the token cell holds its token.
   */
  lemma SignalHitsIff(mode: Mode, handlers: nat, moves: seq<Move>, a: nat, j: TaskId)
    requires Exclusive(mode, handlers, moves) && a < |Run(mode, handlers, moves).actors|
    requires Run(mode, handlers, moves).actors[a].Signalling? && j < |Run(mode, handlers, moves).tasks|
    requires Run(mode, handlers, moves).tasks[j].token !in Run(mode, handlers, moves).cancelled
    ensures
      var s := Run(mode, handlers, moves);
      var r, saw := Do(s, Continue(a)), s.actors[a].saw;
      && saw < |s.tasks| && r.tasks == s.tasks
      && (s.tasks[j].token in r.cancelled <==> s.token == s.tasks[j].token)
      && (s.token == s.tasks[saw].token ==> (s.tasks[j].token in r.cancelled <==> j == saw))
  {
    RunInv(mode, handlers, moves);
    SignalHitsOwner(Run(mode, handlers, moves), a, j);
  }

  /** `clear_completed_task` never changes anything: whoever calls it is the task still running. */
  lemma ClearNeverActs(mode: Mode, handlers: nat, moves: seq<Move>, i: TaskId)
    requires Exclusive(mode, handlers, moves)
    requires
      var s := Run(mode, handlers, moves);
      Unfinished(s, i) && s.tasks[i].stage == Clearing
    ensures
      var s := Run(mode, handlers, moves);
      ClearCompleted(s) == s
  {
    RunInv(mode, handlers, moves);
    ClearDoesNothing(Run(mode, handlers, moves), i);
  }

  // ----- requests that overlap -----

  /** The system after `k` steps of actor `a` alone. */
  function Continues(s: Sys, a: nat, k: nat): Sys
    decreases k
  {
    if k == 0 then s else Continues(Do(s, Continue(a)), a, k - 1)
  }

  lemma Extend(handlers: nat, moves: seq<Move>, m: Move) returns (more: seq<Move>)
    ensures more == moves + [m] && Run(ServerPoll, handlers, more) == Do(Run(ServerPoll, handlers, moves), m)
  {
    more := moves + [m];
    assert more[..|more| - 1] == moves;
  }

  lemma {:induction false} ExtendBy(handlers: nat, moves: seq<Move>, a: nat, k: nat) returns (more: seq<Move>)
    ensures moves <= more && Run(ServerPoll, handlers, more) == Continues(Run(ServerPoll, handlers, moves), a, k)
    decreases k
  {
    more := moves;
    if k > 0 {
      more := Extend(handlers, moves, Continue(a));
      more := ExtendBy(handlers, more, a, k - 1);
    }
  }

  lemma ExtendExclusive(handlers: nat, moves: seq<Move>, m: Move) returns (more: seq<Move>)
    requires Exclusive(ServerPoll, handlers, moves) && (m.Request? ==> NoneBusy(Run(ServerPoll, handlers, moves)))
    ensures more == moves + [m] && Run(ServerPoll, handlers, more) == Do(Run(ServerPoll, handlers, moves), m)
    ensures Exclusive(ServerPoll, handlers, more)
  {
    more := Extend(handlers, moves, m);
    forall k | 0 <= k < |moves|
      ensures more[..k] == moves[..k] && more[k] == moves[k]
    {
    }
    assert more[..|moves|] == moves;
  }

  lemma {:induction false} ContinuesMore(s: Sys, a: nat, k: nat)
    ensures Continues(s, a, k + 1) == Do(Continues(s, a, k), Continue(a))
    decreases k
  {
    if k > 0 {
      ContinuesMore(Do(s, Continue(a)), a, k - 1);
    }
  }

  lemma {:induction false} ContinueExclusive(handlers: nat, moves: seq<Move>, a: nat, k: nat) returns (more: seq<Move>)
    requires Exclusive(ServerPoll, handlers, moves)
    ensures Exclusive(ServerPoll, handlers, more)
    ensures Run(ServerPoll, handlers, more) == Continues(Run(ServerPoll, handlers, moves), a, k)
    decreases k
  {
    more := moves;
    if k > 0 {
      var before := ContinueExclusive(handlers, moves, a, k - 1);
      more := ExtendExclusive(handlers, before, Continue(a));
      ContinuesMore(Run(ServerPoll, handlers, moves), a, k - 1);
    }
  }

  // ----- a session from beginning to end -----

  /** A session started and its handle stored, with nobody in between. */
  function WithSession(s: Sys): Sys {
    s.(token := s.tokens, tokens := s.tokens + 1,
       handle := Some(|s.tasks|), tasks := s.tasks + [Task(s.tokens, Working)])
  }

  /** The system `k` steps of actor `a` alone after it stood at `Start0`. */
  function Started(s: Sys, a: nat, k: nat): Sys
    requires a < |s.actors| && k <= 5
  {
    var own := s.(token := s.tokens, tokens := s.tokens + 1);
    var task := Task(s.tokens, Working);
    if k == 0 then At(s, a, Start0)
    else if k == 1 then At(own, a, Start1)
    else if k == 2 then At(DropHandle(own), a, Start2)
    else if k == 3 then At(DropHandle(own), a, Start3(s.tokens))
    else if k == 4 then At(DropHandle(own).(tasks := s.tasks + [task]), a, Spawned(|s.tasks|))
    else At(WithSession(s), a, Waiting)
  }

  lemma AtTwice(s: Sys, a: nat, p: Actor, q: Actor)
    requires a < |s.actors|
    ensures At(At(s, a, p), a, q) == At(s, a, q)
  {
  }

  lemma StartedStep(s: Sys, a: nat, k: nat)
    requires a < |s.actors| && k < 5
    ensures Do(Started(s, a, k), Continue(a)) == Started(s, a, k + 1)
  {
    var now, next := Started(s, a, k), Started(s, a, k + 1);
    AtTwice(next.(actors := s.actors), a, now.actors[a], next.actors[a]);
    assert now.actors == s.actors[a := now.actors[a]];
  }

  lemma {:induction false} StartedExact(s: Sys, a: nat, k: nat)
    requires a < |s.actors| && s.actors[a] == Start0 && k <= 5
    ensures Continues(s, a, k) == Started(s, a, k)
  {
    if k == 0 {
      assert s.actors[a := Start0] == s.actors;
    } else {
      StartedExact(s, a, k - 1);
      ContinuesMore(s, a, k - 1);
      StartedStep(s, a, k - 1);
    }
  }

  lemma FiveSteps(s: Sys, a: nat)
    requires a < |s.actors| && s.actors[a] == Start0
    ensures Continues(s, a, 5) == WithSession(s).(actors := s.actors[a := Waiting])
  {
    StartedExact(s, a, 5);
  }

  lemma StartsAlone(s: Sys, a: nat)
    requires Admits(s, a)
    ensures Continues(Do(s, Request(a)), a, 5) == WithSession(s)
  {
    FiveSteps(Do(s, Request(a)), a);
    assert s.actors[a := Start0][a := Waiting] == s.actors;
  }

  lemma DoCancelsOld(s: Sys, m: Move)
    requires s.token < s.tokens && (forall i :: 0 <= i < |s.tasks| ==> s.tasks[i].token < s.tokens)
    requires forall c :: c in s.cancelled ==> c < s.tokens
    ensures forall c :: c in Do(s, m).cancelled ==> c < Do(s, m).tokens
  {
  }

  /** Only tokens that exist are ever cancelled. */
  lemma {:induction false} CancelledAreOld(mode: Mode, handlers: nat, moves: seq<Move>)
    requires Exclusive(mode, handlers, moves)
    ensures forall c :: c in Run(mode, handlers, moves).cancelled ==> c < Run(mode, handlers, moves).tokens
  {
    if moves != [] {
      var front := moves[..|moves| - 1];
      ExclusiveFront(mode, handlers, moves);
      CancelledAreOld(mode, handlers, front);
      RunInv(mode, handlers, front);
      DoCancelsOld(Run(mode, handlers, front), moves[|moves| - 1]);
    }
  }

  // ----- what the server's reply brings about -----

  lemma CancelSteps(s: Sys, a: nat)
    requires a < |s.actors| && s.actors[a] == Cancelling(false)
    ensures
      var r := Do(Do(s, Continue(a)), Continue(a));
      && r.tasks == s.tasks && r.actors == s.actors[a := Waiting]
      && r.cancelled == s.cancelled + if Running(s) then {s.token} else {}
  {
  }

  lemma RunningIs(s: Sys, i: TaskId)
    requires Inv(s) && Unfinished(s, i) && forall a :: 0 <= a < |s.actors| ==> !s.actors[a].Spawned?
    ensures s.handle == Some(i) && Running(s) && s.token == s.tasks[i].token
  {
  }

  /**
   In every DaemonPoll run: a cancellation in the server's reply, followed through, cancels the token of
   the unfinished session, and nothing when there is none.
   */
  lemma ReplyCancels(handlers: nat, moves: seq<Move>, ready: bool)
    requires Run(DaemonPoll, handlers, moves).actors != []
    requires Run(DaemonPoll, handlers, moves).actors[0] == Reported(ready)
    ensures
      var s := Run(DaemonPoll, handlers, moves);
      var r := Do(Do(Do(s, Answer(false, true)), Continue(0)), Continue(0));
      && r.tasks == s.tasks && r.actors == s.actors[0 := Waiting]
      && (forall i: TaskId :: Unfinished(s, i) ==> r.cancelled == s.cancelled + {s.tasks[i].token})
      && (NoneUnfinished(s) ==> r.cancelled == s.cancelled)
  {
    var s := Run(DaemonPoll, handlers, moves);
    DaemonPollIsExclusive(handlers, moves);
    RunInv(DaemonPoll, handlers, moves);
    RunRoles(DaemonPoll, handlers, moves);
    LoopOnly(s);
    var asked := Do(s, Answer(false, true));
    assert asked == At(s, 0, Cancelling(false));
    CancelSteps(asked, 0);
    assert s.actors[0 := Cancelling(false)][0 := Waiting] == s.actors[0 := Waiting];
    forall i: TaskId | Unfinished(s, i)
      ensures Running(asked) && s.token == s.tasks[i].token
    {
      RunningIs(s, i);
    }
    IdleMeansNoneUnfinished(s);
  }

  /** Whatever happened since the reply: a loop that looks finds the unfinished session and is about to signal it. */
  lemma LoopLooks(handlers: nat, moves: seq<Move>, work: bool, i: TaskId)
    requires Run(DaemonPoll, handlers, moves).actors != []
    requires Run(DaemonPoll, handlers, moves).actors[0] == Cancelling(work)
    requires Unfinished(Run(DaemonPoll, handlers, moves), i)
    ensures
      var s := Run(DaemonPoll, handlers, moves);
      Do(s, Continue(0)).actors == s.actors[0 := Signalling(i, false)]
  {
    var s := Run(DaemonPoll, handlers, moves);
    DaemonPollIsExclusive(handlers, moves);
    RunInv(DaemonPoll, handlers, moves);
    RunRoles(DaemonPoll, handlers, moves);
    LoopOnly(s);
    RunningIs(s, i);
    assert ActorOk(s, s.actors[0]);
  }

  lemma ReplySteps(s: Sys, cancel: bool)
    requires s.actors != [] && s.actors[0] == Reported(true) && !Running(s)
    ensures
      Continues(Do(s, Answer(true, cancel)), 0, if cancel then 6 else 5) ==
      WithSession(s).(actors := s.actors[0 := Waiting])
  {
    var asked := Do(s, Answer(true, cancel));
    if cancel {
      var start := Do(asked, Continue(0));
      assert Continues(asked, 0, 6) == Continues(start, 0, 5);
      FiveSteps(start, 0);
      assert s.actors[0 := Cancelling(true)][0 := Start0][0 := Waiting] == s.actors[0 := Waiting];
    } else {
      FiveSteps(asked, 0);
      assert s.actors[0 := Start0][0 := Waiting] == s.actors[0 := Waiting];
    }
  }

  /**
   In every DaemonPoll run: work sent to a daemon that reported itself ready, followed through, ends with
   exactly one more session task, working, with a token no task has had and its handle stored.
   */
  lemma ReplyStartsSession(handlers: nat, moves: seq<Move>, cancel: bool)
    requires Run(DaemonPoll, handlers, moves).actors != []
    requires Run(DaemonPoll, handlers, moves).actors[0] == Reported(true)
    ensures
      var s := Run(DaemonPoll, handlers, moves);
      var r := Continues(Do(s, Answer(true, cancel)), 0, if cancel then 6 else 5);
      && |r.tasks| == |s.tasks| + 1 && r.tasks[..|s.tasks|] == s.tasks && r.tasks[|s.tasks|].stage == Working
      && r.handle == Some(|s.tasks|) && r.token == r.tasks[|s.tasks|].token
      && (forall j :: 0 <= j < |s.tasks| ==> r.tasks[j].token != r.token)
      && r.token !in s.cancelled && r.cancelled == s.cancelled && r.actors == s.actors[0 := Waiting]
  {
    var s := Run(DaemonPoll, handlers, moves);
    DaemonPollIsExclusive(handlers, moves);
    RunInv(DaemonPoll, handlers, moves);
    RunRoles(DaemonPoll, handlers, moves);
    LoopOnly(s);
    IdleMeansNoneUnfinished(s);
    assert ActorOk(s, s.actors[0]);
    CancelledAreOld(DaemonPoll, handlers, moves);
    ReplySteps(s, cancel);
  }

  /** In every exclusive ServerPoll run: a handler asked to cancel, followed through, cancels the running session. */
  lemma RequestCancels(handlers: nat, moves: seq<Move>, a: nat, i: TaskId)
    requires Exclusive(ServerPoll, handlers, moves) && NoneBusy(Run(ServerPoll, handlers, moves))
    requires IsHandler(Run(ServerPoll, handlers, moves), a) && Run(ServerPoll, handlers, moves).actors[a] == Waiting
    requires Unfinished(Run(ServerPoll, handlers, moves), i)
    ensures
      var s := Run(ServerPoll, handlers, moves);
      Do(Do(Do(s, RequestCancel(a)), Continue(a)), Continue(a)) == s.(cancelled := s.cancelled + {s.tasks[i].token})
  {
    var s := Run(ServerPoll, handlers, moves);
    RunInv(ServerPoll, handlers, moves);
    RunRoles(ServerPoll, handlers, moves);
    RunningIs(s, i);
    assert s.actors[a := Cancelling(false)][a := Signalling(i, false)][a := Waiting] == s.actors;
  }

  // ----- a late signal -----

  lemma SessionStarts(handlers: nat, moves: seq<Move>, a: nat) returns (more: seq<Move>)
    requires Exclusive(ServerPoll, handlers, moves)
    requires Admits(Run(ServerPoll, handlers, moves), a) && NoneBusy(Run(ServerPoll, handlers, moves))
    ensures Exclusive(ServerPoll, handlers, more)
    ensures Run(ServerPoll, handlers, more) == WithSession(Run(ServerPoll, handlers, moves))
  {
    StartsAlone(Run(ServerPoll, handlers, moves), a);
    more := ExtendExclusive(handlers, moves, Request(a));
    more := ContinueExclusive(handlers, more, a, 5);
  }

  function WithStage(s: Sys, i: TaskId, stage: Stage): Sys
    requires i < |s.tasks|
  {
    s.(tasks := s.tasks[i := s.tasks[i].(stage := stage)])
  }

  lemma EndsAlone(s: Sys, i: TaskId)
    requires s.handle == Some(i) && i < |s.tasks| && s.tasks[i].stage == Working && s.tasks[i].token !in s.cancelled
    ensures Do(s, AdvanceTask(i)) == WithStage(s, i, Clearing)
    ensures Do(WithStage(s, i, Clearing), AdvanceTask(i)) == WithStage(s, i, Leaving)
    ensures Do(WithStage(s, i, Leaving), AdvanceTask(i)) == WithStage(s, i, Finished)
  {
  }

  lemma SessionEnds(handlers: nat, moves: seq<Move>, i: TaskId) returns (more: seq<Move>)
    requires Exclusive(ServerPoll, handlers, moves)
    requires
      var s := Run(ServerPoll, handlers, moves);
      s.handle == Some(i) && i < |s.tasks| && s.tasks[i].stage == Working && s.tasks[i].token !in s.cancelled
    ensures Exclusive(ServerPoll, handlers, more) && i < |Run(ServerPoll, handlers, moves).tasks|
    ensures Run(ServerPoll, handlers, more) == WithStage(Run(ServerPoll, handlers, moves), i, Finished)
  {
    EndsAlone(Run(ServerPoll, handlers, moves), i);
    more := ExtendExclusive(handlers, moves, AdvanceTask(i));
    more := ExtendExclusive(handlers, more, AdvanceTask(i));
    more := ExtendExclusive(handlers, more, AdvanceTask(i));
  }

  /** One session running, seen by handler 2, which is about to signal. */
  function Seen(handlers: nat): Sys
    requires handlers >= 2
  {
    At(WithSession(Start(ServerPoll, handlers)), 2, Signalling(0, false))
  }

  lemma SeenRun(handlers: nat) returns (moves: seq<Move>)
    requires handlers >= 2
    ensures Exclusive(ServerPoll, handlers, moves) && Run(ServerPoll, handlers, moves) == Seen(handlers)
  {
    moves := SessionStarts(handlers, [], 1);
    moves := ExtendExclusive(handlers, moves, RequestCancel(2));
    moves := ExtendExclusive(handlers, moves, Continue(2));
  }

  /** The seen session ends, another starts, and the signal cancels that one instead. */
  lemma LateSignalHitsTheNext(handlers: nat) returns (moves: seq<Move>)
    requires handlers >= 2
    ensures Exclusive(ServerPoll, handlers, moves)
    ensures
      var s := Run(ServerPoll, handlers, moves);
      && |s.actors| > 2 && s.actors[2] == Signalling(0, false) && |s.tasks| == 2 && s.cancelled == {}
      && !Unfinished(s, 0) && Unfinished(s, 1)
      && Do(s, Continue(2)).cancelled == {s.tasks[1].token} && s.tasks[0].token != s.tasks[1].token
  {
    moves := SeenRun(handlers);
    moves := SessionEnds(handlers, moves, 0);
    moves := SessionStarts(handlers, moves, 1);
  }

  predicate Starting(pc: Actor) {
    pc.Start0? || pc.Start1? || pc.Start2? || pc.Start3?
  }

  /** Where actor `a` has spawned a new session and nothing else about tasks and actors has changed. */
  ghost predicate SpawnsIn(s: Sys, r: Sys, a: nat) {
    && a < |s.actors| && r.mode == s.mode && r.actors == s.actors[a := Spawned(|s.tasks|)]
    && |r.tasks| == |s.tasks| + 1 && r.tasks[..|s.tasks|] == s.tasks && r.tasks[|s.tasks|].stage == Working
  }

  lemma {:induction false} SpawnsSoon(s: Sys, a: nat) returns (k: nat)
    requires a < |s.actors| && Starting(s.actors[a])
    ensures SpawnsIn(s, Continues(s, a, k), a)
    decreases if s.actors[a].Start0? then 3 else if s.actors[a].Start1? then 2 else if s.actors[a].Start2? then 1 else 0
  {
    var r := Do(s, Continue(a));
    if s.actors[a].Start3? {
      k := 1;
      assert Continues(r, a, 0) == r;
    } else {
      var rest := SpawnsSoon(r, a);
      k := rest + 1;
      assert Continues(s, a, k) == Continues(r, a, rest);
    }
  }

  lemma Spawns(handlers: nat, moves: seq<Move>, a: nat) returns (more: seq<Move>)
    requires a < |Run(ServerPoll, handlers, moves).actors| && Starting(Run(ServerPoll, handlers, moves).actors[a])
    ensures moves <= more && SpawnsIn(Run(ServerPoll, handlers, moves), Run(ServerPoll, handlers, more), a)
  {
    var k := SpawnsSoon(Run(ServerPoll, handlers, moves), a);
    more := ExtendBy(handlers, moves, a, k);
  }

  lemma TwoUnfinished(s: Sys, i: TaskId, j: TaskId)
    requires i != j && Unfinished(s, i) && Unfinished(s, j)
    ensures !AtMostOne(s)
  {
  }

  lemma SpawnedBeside(s: Sys, r: Sys, a: nat, i: TaskId)
    requires SpawnsIn(s, r, a) && Unfinished(s, i)
    ensures !AtMostOne(r)
  {
    assert r.tasks[i] == r.tasks[..|s.tasks|][i];
    TwoUnfinished(r, i, |s.tasks|);
  }

  /** One actor is about to start a session while another has one unfinished. */
  lemma SplitNow(handlers: nat, moves: seq<Move>, a: nat, i: TaskId) returns (more: seq<Move>)
    requires a < |Run(ServerPoll, handlers, moves).actors| && Starting(Run(ServerPoll, handlers, moves).actors[a])
    requires Unfinished(Run(ServerPoll, handlers, moves), i)
    ensures moves <= more && !AtMostOne(Run(ServerPoll, handlers, more))
  {
    more := Spawns(handlers, moves, a);
    SpawnedBeside(Run(ServerPoll, handlers, moves), Run(ServerPoll, handlers, more), a, i);
  }

  lemma SplitStarting(handlers: nat, moves: seq<Move>, a: nat, b: nat) returns (more: seq<Move>)
    requires a != b && a < |Run(ServerPoll, handlers, moves).actors| && b < |Run(ServerPoll, handlers, moves).actors|
    requires Starting(Run(ServerPoll, handlers, moves).actors[a])
    requires Starting(Run(ServerPoll, handlers, moves).actors[b])
    ensures moves <= more && !AtMostOne(Run(ServerPoll, handlers, more))
  {
    var mid := Spawns(handlers, moves, b);
    more := SplitNow(handlers, mid, a, |Run(ServerPoll, handlers, moves).tasks|);
  }

  /** Storing both handles, the finished one last, and asking again: the running check misses the session. */
  lemma StoreStale(s: Sys, a: nat, b: nat)
    requires a != b && a < |s.actors| && IsHandler(s, b) && s.mode == ServerPoll
    requires s.actors[a].Spawned? && s.actors[b].Spawned? && s.actors[b].task < |s.tasks|
    requires s.tasks[s.actors[b].task].stage == Finished
    ensures
      var r := Do(Do(Do(s, Continue(a)), Continue(b)), Request(b));
      r.tasks == s.tasks && |r.actors| == |s.actors| && r.actors[b] == Start0
  {
  }

  lemma SplitStale(handlers: nat, moves: seq<Move>, a: nat, b: nat, i: TaskId) returns (more: seq<Move>)
    requires
      var s := Run(ServerPoll, handlers, moves);
      && a != b && a < |s.actors| && IsHandler(s, b) && s.mode == ServerPoll
      && s.actors[a].Spawned? && s.actors[b].Spawned? && s.actors[b].task < |s.tasks|
      && s.tasks[s.actors[b].task].stage == Finished && Unfinished(s, i)
    ensures moves <= more && !AtMostOne(Run(ServerPoll, handlers, more))
  {
    StoreStale(Run(ServerPoll, handlers, moves), a, b);
    more := Extend(handlers, moves, Continue(a));
    more := Extend(handlers, more, Continue(b));
    more := Extend(handlers, more, Request(b));
    more := SplitNow(handlers, more, b, i);
  }

  lemma SplitSpawned(handlers: nat, moves: seq<Move>, a: nat, b: nat) returns (more: seq<Move>)
    requires
      var s := Run(ServerPoll, handlers, moves);
      && a != b && a < |s.actors| && IsHandler(s, b) && s.mode == ServerPoll
      && Starting(s.actors[a]) && s.actors[b].Spawned? && s.actors[b].task < |s.tasks|
    ensures moves <= more && !AtMostOne(Run(ServerPoll, handlers, more))
  {
    var s := Run(ServerPoll, handlers, moves);
    if Unfinished(s, s.actors[b].task) {
      more := SplitNow(handlers, moves, a, s.actors[b].task);
    } else {
      var mid := Spawns(handlers, moves, a);
      var r := Run(ServerPoll, handlers, mid);
      assert r.tasks[s.actors[b].task] == r.tasks[..|s.tasks|][s.actors[b].task];
      more := SplitStale(handlers, mid, a, b, |s.tasks|);
    }
  }

  /** Any request admitted while another handler is starting a session can be continued to two sessions. */
  lemma OverlapSplits(handlers: nat, moves: seq<Move>, a: nat, b: nat) returns (more: seq<Move>)
    requires
      var s := Run(ServerPoll, handlers, moves);
      Admits(s, a) && b < |s.actors| && Busy(s.actors[b])
    ensures moves + [Request(a)] <= more && !AtMostOne(Run(ServerPoll, handlers, more))
  {
    var s := Run(ServerPoll, handlers, moves);
    RunRoles(ServerPoll, handlers, moves);
    assert PlaysRole(ServerPoll, b, s.actors[b]);
    var mid := Extend(handlers, moves, Request(a));
    if s.actors[b].Spawned? {
      more := SplitSpawned(handlers, mid, a, b);
    } else {
      more := SplitStarting(handlers, mid, a, b);
    }
  }

  /** Two handlers that both pass the running check before either stores a handle. */
  lemma TwoHandlersTwoSessions(handlers: nat) returns (moves: seq<Move>)
    requires handlers >= 2
    ensures !AtMostOne(Run(ServerPoll, handlers, moves))
  {
    var first := Extend(handlers, [], Request(1));
    moves := OverlapSplits(handlers, first, 2, 1);
  }

  lemma OneHandlerNoneBusy(s: Sys, handlers: nat, a: nat)
    requires handlers <= 1 && Roles(s, ServerPoll, handlers) && Admits(s, a)
    ensures NoneBusy(s)
  {
    forall b | 0 <= b < |s.actors|
      ensures !Busy(s.actors[b])
    {
      assert PlaysRole(ServerPoll, b, s.actors[b]);
    }
  }

  lemma OneHandlerIsExclusive(handlers: nat, moves: seq<Move>)
    requires handlers <= 1
    ensures Exclusive(ServerPoll, handlers, moves)
  {
    forall k | 0 <= k < |moves| && moves[k].Request? && Admits(Run(ServerPoll, handlers, moves[..k]), moves[k].actor)
      ensures NoneBusy(Run(ServerPoll, handlers, moves[..k]))
    {
      RunRoles(ServerPoll, handlers, moves[..k]);
      OneHandlerNoneBusy(Run(ServerPoll, handlers, moves[..k]), handlers, moves[k].actor);
    }
  }

  /** A ServerPoll daemon keeps to one session in every run if and only if it has at most one handler at a time. */
  lemma ServerPollSingleIff(handlers: nat)
    ensures (forall moves :: AtMostOne(Run(ServerPoll, handlers, moves))) <==> handlers <= 1
  {
    if handlers <= 1 {
      forall moves
        ensures AtMostOne(Run(ServerPoll, handlers, moves))
      {
        OneHandlerIsExclusive(handlers, moves);
        RunInv(ServerPoll, handlers, moves);
        InvSingle(Run(ServerPoll, handlers, moves));
      }
    } else {
      var moves := TwoHandlersTwoSessions(handlers);
    }
  }
}
