/**
 The life of an ETW session (src/etw/session.rs): `start` with its clean-up paths, `stop`, and the
 drop of the `EventTrace`, step by step against the thread that sits in `ProcessTrace` and against
 other processes that start and stop sessions of the same name.
 */
module TraceLifecycle {

  /** The session that carries the name: none, the one this `start` created, or somebody else's. */
  datatype Session = NoSession | Ours | Foreign

  /** The boxed `CallbackContext` whose address ETW hands to each callback. */
  datatype Context = Unallocated | Alive | Freed

  /** The thread that runs `ProcessTrace`. */
  datatype Thread = Unspawned | Processing(inCallback: bool) | Exited

  datatype Config = Config(kernel: bool, providers: nat)

  datatype StartError = SessionStartFailed | ProviderEnableFailed | ConsumeFailed | EventCreationFailed

  /** What the thread that owns the `EventTrace` does next; `dropping` marks a `stop` called by `drop`. */
  datatype Pc =
    | StartTrace
    | StopStale
    | RetryStart
    | EnableProvider(done: nat)
    | CleanUp(error: StartError)
    | OpenTrace
    | SpawnThread
    | CreateEvent
    | Live
    | StopSession(dropping: bool)
    | CloseHandle(dropping: bool)
    | JoinThread(dropping: bool)
    | FreeContext
    | StartFailed(error: StartError)
    | Gone

  datatype State = State(
    config: Config,
    pc: Pc,
    session: Session,
    context: Context,
    thread: Thread,
    /** `trace_handle` is not the invalid value. */
    handleValid: bool,
    started: bool,
    opens: nat,
    closes: nat,
    /** ControlTraceW calls made by `stop`. */
    stops: nat,
    /** The ControlTraceW of a clean-up path failed; its result is ignored. */
    cleanUpFailed: bool,
    eventFailed: bool,
    /** The ControlTraceW of `stop` failed; its result is ignored too. */
    stopFailed: bool,
    /** Somebody else stopped the session this `start` created. */
    stoppedByOther: bool,
    /** EnableTraceEx2 calls that succeeded. */
    enabled: nat
  )

  function Init(config: Config, foreign: bool): (s: State)
  {
    State(config, StartTrace, if foreign then Foreign else NoSession, Unallocated, Unspawned, false, false,
          0, 0, 0, false, false, false, false, 0)
  }

  datatype Action =
    /** The owning thread takes its next step; `ok` is what the system call of that step answers, if it makes one. */
    | Main(ok: bool)
    | CallStop
    | CallDrop
    | CallbackEnters
    | CallbackLeaves
    | ThreadExits
    | OtherStarts
    | OtherStops

  /** Where `start` goes with a session of its own. */
  function AfterSession(config: Config, done: nat): (pc: Pc)
  {
    if !config.kernel && done < config.providers then EnableProvider(done) else OpenTrace
  }

  /** The context is allocated right before `OpenTraceW`. */
  function Enter(s: State, pc: Pc): (t: State)
  {
    s.(pc := pc, context := if pc.OpenTrace? then Alive else s.context)
  }

  /** A session of the name that exists already makes StartTraceW fail. */
  function OnStartTrace(s: State, ok: bool): (t: State)
  {
    if !ok then s.(pc := StartFailed(SessionStartFailed))
    else if s.session.NoSession? then Enter(s.(session := Ours), AfterSession(s.config, 0))
    else if s.config.kernel && s.pc.StartTrace? then s.(pc := StopStale)
    else s.(pc := StartFailed(SessionStartFailed))
  }

  function OnStopStale(s: State, ok: bool): (t: State)
  {
    s.(session := if ok then NoSession else s.session, pc := RetryStart)
  }

  function OnEnable(s: State, ok: bool): (t: State)
    requires s.pc.EnableProvider?
  {
    if ok then Enter(s.(enabled := s.enabled + 1), AfterSession(s.config, s.pc.done + 1))
    else s.(pc := CleanUp(ProviderEnableFailed))
  }

  function StopOurs(session: Session, ok: bool): (t: Session)
  {
    if ok && session.Ours? then NoSession else session
  }

  /** The clean-up stops the session by its handle and ignores the answer; returning frees the context. */
  function OnCleanUp(s: State, ok: bool): (t: State)
    requires s.pc.CleanUp?
  {
    s.(session := StopOurs(s.session, ok), cleanUpFailed := !ok,
       context := if s.context.Alive? then Freed else s.context, pc := StartFailed(s.pc.error))
  }

  function OnOpen(s: State, ok: bool): (t: State)
  {
    if ok then s.(handleValid := true, opens := s.opens + 1, pc := SpawnThread) else s.(pc := CleanUp(ConsumeFailed))
  }

  /** If the stop event cannot be created, `start` returns at once: the thread is detached, the context freed. */
  function OnCreateEvent(s: State, ok: bool): (t: State)
  {
    if ok then s.(started := true, pc := Live)
    else s.(eventFailed := true, context := Freed, pc := StartFailed(EventCreationFailed))
  }

  /** `stop` stops the session first, and ignores the answer. */
  function OnStopSession(s: State, ok: bool): (t: State)
    requires s.pc.StopSession?
  {
    s.(session := StopOurs(s.session, ok), stops := s.stops + 1, stopFailed := !ok, pc := CloseHandle(s.pc.dropping))
  }

  function OnCloseHandle(s: State): (t: State)
    requires s.pc.CloseHandle?
  {
    var t := s.(pc := JoinThread(s.pc.dropping));
    if s.handleValid then t.(handleValid := false, closes := s.closes + 1) else t
  }

  /** `join` returns only once the thread has exited. */
  function OnJoin(s: State): (t: State)
    requires s.pc.JoinThread?
  {
    if s.thread.Exited? then s.(started := false, pc := if s.pc.dropping then FreeContext else Live) else s
  }

  function OnMain(s: State, ok: bool): (t: State)
  {
    match s.pc
    case StartTrace => OnStartTrace(s, ok)
    case StopStale => OnStopStale(s, ok)
    case RetryStart => OnStartTrace(s, ok)
    case EnableProvider(_) => OnEnable(s, ok)
    case CleanUp(_) => OnCleanUp(s, ok)
    case OpenTrace => OnOpen(s, ok)
    case SpawnThread => s.(thread := Processing(false), pc := CreateEvent)
    case CreateEvent => OnCreateEvent(s, ok)
    case StopSession(_) => OnStopSession(s, ok)
    case CloseHandle(_) => OnCloseHandle(s)
    case JoinThread(_) => OnJoin(s)
    case FreeContext => s.(context := Freed, pc := Gone)
    case Live => s
    case StartFailed(_) => s
    case Gone => s
  }

  /** `stop`, called by the user or by `drop`, does nothing on a session that is not started. */
  function OnStopCall(s: State, dropping: bool): (t: State)
  {
    if !s.pc.Live? then s
    else if s.started then s.(pc := StopSession(dropping))
    else if dropping then s.(pc := FreeContext)
    else s
  }

  function Next(s: State, a: Action): (t: State)
  {
    match a
    case Main(ok) => OnMain(s, ok)
    case CallStop => OnStopCall(s, false)
    case CallDrop => OnStopCall(s, true)
    case CallbackEnters => if s.thread == Processing(false) then s.(thread := Processing(true)) else s
    case CallbackLeaves => if s.thread == Processing(true) then s.(thread := Processing(false)) else s
    case ThreadExits => if s.thread == Processing(false) then s.(thread := Exited) else s
    case OtherStarts => if s.session.NoSession? then s.(session := Foreign) else s
    case OtherStops => s.(session := NoSession, stoppedByOther := s.stoppedByOther || s.session.Ours?)
  }

  function Run(s: State, actions: seq<Action>): (t: State)
    decreases |actions|
  {
    if actions == [] then s else Run(Next(s, actions[0]), actions[1..])
  }

  // ----- what every step keeps -----

  /** Before the trace handle is open. */
  ghost predicate Unopened(s: State) {
    s.thread.Unspawned? && s.opens == 0 && s.closes == 0 && s.stops == 0 && !s.handleValid && !s.started
        && !s.eventFailed
  }

  /** The thread is out and the handle open, `stop` has not reached it. */
  ghost predicate Open(s: State) {
    !s.thread.Unspawned? && s.opens == 1 && s.closes == 0 && s.handleValid && s.context.Alive? && !s.cleanUpFailed
  }

  /** `stop` has closed the handle. */
  ghost predicate Closed(s: State) {
    !s.thread.Unspawned? && s.opens == 1 && s.closes == 1 && s.stops == 1 && !s.handleValid && !s.cleanUpFailed
  }

  /** The session this `start` created runs unless somebody else stopped it. */
  ghost predicate Kept(s: State) {
    s.session.Ours? <==> !s.stoppedByOther
  }

  /** `stop` has made its call: the session still runs exactly if that failed, unless somebody else stopped it. */
  ghost predicate Left(s: State) {
    s.session.Ours? <==> s.stopFailed && !s.stoppedByOther
  }

  ghost predicate Inv(s: State) {
    && (s.stops == 0 ==> !s.stopFailed)
    && AtPc(s)
  }

  /** What holds at each step of the owner. */
  ghost predicate AtPc(s: State) {
    match s.pc
    case StartTrace => Unopened(s) && s.context.Unallocated? && !s.session.Ours? && !s.stoppedByOther
        && !s.cleanUpFailed
    case StopStale => Unopened(s) && s.context.Unallocated? && !s.session.Ours? && !s.stoppedByOther && !s.cleanUpFailed
    case RetryStart => Unopened(s) && s.context.Unallocated? && !s.session.Ours? && !s.stoppedByOther
        && !s.cleanUpFailed
    case EnableProvider(_) => Unopened(s) && s.context.Unallocated? && Kept(s) && !s.cleanUpFailed
    case CleanUp(e) => Unopened(s) && Kept(s) && e in {ProviderEnableFailed, ConsumeFailed}
    case OpenTrace => Unopened(s) && s.context.Alive? && Kept(s) && !s.cleanUpFailed
    case SpawnThread =>
      && s.thread.Unspawned? && s.context.Alive? && s.opens == 1 && s.closes == 0 && s.stops == 0 && s.handleValid
      && !s.started && !s.eventFailed && Kept(s) && !s.cleanUpFailed
    case CreateEvent => Open(s) && s.stops == 0 && !s.started && !s.eventFailed && Kept(s)
    case Live =>
      && !s.eventFailed && s.context.Alive?
      && if s.started then Open(s) && s.stops == 0 && Kept(s) else Closed(s) && s.thread.Exited? && Left(s)
    case StopSession(_) => !s.eventFailed && Open(s) && s.started && s.stops == 0 && Kept(s)
    case CloseHandle(_) => !s.eventFailed && Open(s) && s.started && s.stops == 1 && Left(s)
    case JoinThread(_) => !s.eventFailed && Closed(s) && s.started && s.context.Alive? && Left(s)
    case FreeContext => !s.eventFailed && Closed(s) && !s.started && s.context.Alive? && s.thread.Exited? && Left(s)
    case Gone => !s.eventFailed && Closed(s) && !s.started && s.context.Freed? && s.thread.Exited? && Left(s)
    case StartFailed(e) =>
      && !s.started
      && match e
         case SessionStartFailed => Unopened(s) && !s.session.Ours? && s.context.Unallocated? && !s.cleanUpFailed
         case ProviderEnableFailed => Unopened(s) && !s.context.Alive?
             && (s.session.Ours? <==> s.cleanUpFailed && !s.stoppedByOther)
         case ConsumeFailed => Unopened(s) && !s.context.Alive?
             && (s.session.Ours? <==> s.cleanUpFailed && !s.stoppedByOther)
         case EventCreationFailed =>
           && s.eventFailed && !s.thread.Unspawned? && s.context.Freed?
           && s.opens == 1 && s.closes == 0 && s.stops == 0 && s.handleValid && Kept(s) && !s.cleanUpFailed
  }

  predicate Starting(pc: Pc) {
    pc.StartTrace? || pc.StopStale? || pc.RetryStart? || pc.EnableProvider? || pc.CleanUp? || pc.OpenTrace?
  }

  lemma {:induction false} StartingKeeps(s: State, ok: bool)
    requires Inv(s) && Starting(s.pc)
    ensures Inv(OnMain(s, ok))
  {
  }

  lemma {:induction false} StartedKeeps(s: State, ok: bool)
    requires Inv(s) && !Starting(s.pc)
    ensures Inv(OnMain(s, ok))
  {
    if s.pc.StopSession? {
      StopSessionKeeps(s, ok);
    } else if s.pc.CloseHandle? {
      CloseHandleKeeps(s);
    } else if s.pc.JoinThread? {
      JoinKeeps(s);
    }
  }

  lemma {:induction false} StopSessionKeeps(s: State, ok: bool)
    requires Inv(s) && s.pc.StopSession?
    ensures Inv(OnStopSession(s, ok))
  {
  }

  lemma {:induction false} CloseHandleKeeps(s: State)
    requires Inv(s) && s.pc.CloseHandle?
    ensures Inv(OnCloseHandle(s))
  {
  }

  lemma {:induction false} JoinKeeps(s: State)
    requires Inv(s) && s.pc.JoinThread?
    ensures Inv(OnJoin(s))
  {
  }

  lemma {:induction false} CallKeeps(s: State, dropping: bool)
    requires Inv(s)
    ensures Inv(OnStopCall(s, dropping))
  {
  }

  /** Steps of the thread leave everything else as it is. */
  lemma {:induction false} ThreadKeeps(s: State, a: Action)
    requires Inv(s) && (a.CallbackEnters? || a.CallbackLeaves? || a.ThreadExits?)
    ensures Inv(Next(s, a))
  {
  }

  lemma {:induction false} OthersKeep(s: State, a: Action)
    requires Inv(s) && (a.OtherStarts? || a.OtherStops?)
    ensures Inv(Next(s, a))
  {
  }

  lemma {:induction false} StepKeeps(s: State, a: Action)
    requires Inv(s)
    ensures Inv(Next(s, a))
  {
    match a
    case Main(ok) =>
      if Starting(s.pc) {
        StartingKeeps(s, ok);
      } else {
        StartedKeeps(s, ok);
      }
    case CallStop => CallKeeps(s, false);
    case CallDrop => CallKeeps(s, true);
    case CallbackEnters => ThreadKeeps(s, a);
    case CallbackLeaves => ThreadKeeps(s, a);
    case ThreadExits => ThreadKeeps(s, a);
    case OtherStarts => OthersKeep(s, a);
    case OtherStops => OthersKeep(s, a);
  }

  lemma {:induction false} EveryRunKeeps(s: State, actions: seq<Action>)
    requires Inv(s)
    ensures Inv(Run(s, actions))
    decreases |actions|
  {
    if actions != [] {
      StepKeeps(s, actions[0]);
      EveryRunKeeps(Next(s, actions[0]), actions[1..]);
    }
  }

  lemma InitHolds(config: Config, foreign: bool, actions: seq<Action>)
    ensures Inv(Run(Init(config, foreign), actions))
  {
    EveryRunKeeps(Init(config, foreign), actions);
  }

  // ----- the session a start gets, and its providers -----

  /** A user-mode session enables each provider once, before the trace is opened; a kernel session enables none. */
  ghost predicate ProvidersAt(config: Config, pc: Pc, enabled: nat) {
    if pc.StartTrace? || pc.StopStale? || pc.RetryStart? then enabled == 0
    else if pc.EnableProvider? then enabled == pc.done < config.providers && !config.kernel
    else if pc.CleanUp? || pc.StartFailed? then EnabledBefore(config, pc.error, enabled)
    else enabled == Wanted(config)
  }

  function Wanted(config: Config): (n: nat) {
    if config.kernel then 0 else config.providers
  }

  /** How many providers a `start` that fails in this way has enabled. */
  ghost predicate EnabledBefore(config: Config, e: StartError, enabled: nat) {
    if e.SessionStartFailed? then enabled == 0
    else if e.ProviderEnableFailed? then enabled < config.providers && !config.kernel
    else enabled == Wanted(config)
  }

  ghost predicate ProvidersInv(s: State) {
    ProvidersAt(s.config, s.pc, s.enabled)
  }

  lemma {:induction false} ProvidersOnStart(s: State, ok: bool)
    requires ProvidersInv(s) && (s.pc.StartTrace? || s.pc.RetryStart?)
    ensures ProvidersInv(OnStartTrace(s, ok)) && OnStartTrace(s, ok).config == s.config
  {
  }

  lemma {:induction false} ProvidersOnEnable(s: State, ok: bool)
    requires ProvidersInv(s) && s.pc.EnableProvider?
    ensures ProvidersInv(OnEnable(s, ok)) && OnEnable(s, ok).config == s.config
  {
  }

  lemma {:induction false} ProvidersOnCleanUp(s: State, ok: bool)
    requires ProvidersInv(s) && (s.pc.StopStale? || s.pc.CleanUp?)
    ensures ProvidersInv(OnMain(s, ok)) && OnMain(s, ok).config == s.config
  {
  }

  lemma {:induction false} ProvidersOnOpen(s: State, ok: bool)
    requires ProvidersInv(s) && (s.pc.OpenTrace? || s.pc.SpawnThread? || s.pc.CreateEvent?)
    ensures ProvidersInv(OnMain(s, ok)) && OnMain(s, ok).config == s.config
  {
  }

  lemma {:induction false} ProvidersOnStop(s: State, ok: bool)
    requires ProvidersInv(s) && (s.pc.StopSession? || s.pc.CloseHandle? || s.pc.JoinThread?)
    ensures ProvidersInv(OnMain(s, ok)) && OnMain(s, ok).config == s.config
  {
  }

  lemma {:induction false} ProvidersOnMain(s: State, ok: bool)
    requires ProvidersInv(s)
    ensures ProvidersInv(OnMain(s, ok)) && OnMain(s, ok).config == s.config
  {
    if s.pc.StartTrace? || s.pc.RetryStart? {
      ProvidersOnStart(s, ok);
    } else if s.pc.EnableProvider? {
      ProvidersOnEnable(s, ok);
    } else if s.pc.StopStale? || s.pc.CleanUp? {
      ProvidersOnCleanUp(s, ok);
    } else if s.pc.OpenTrace? || s.pc.SpawnThread? || s.pc.CreateEvent? {
      ProvidersOnOpen(s, ok);
    } else if s.pc.StopSession? || s.pc.CloseHandle? || s.pc.JoinThread? {
      ProvidersOnStop(s, ok);
    }
  }

  lemma {:induction false} ProvidersOnCall(s: State, dropping: bool)
    requires ProvidersInv(s)
    ensures ProvidersInv(OnStopCall(s, dropping)) && OnStopCall(s, dropping).config == s.config
  {
  }

  lemma {:induction false} ProvidersOfOthers(s: State, a: Action)
    requires ProvidersInv(s) && !a.Main? && !a.CallStop? && !a.CallDrop?
    ensures ProvidersInv(Next(s, a)) && Next(s, a).config == s.config
  {
  }

  lemma {:induction false} ProvidersStep(s: State, a: Action)
    requires ProvidersInv(s)
    ensures ProvidersInv(Next(s, a)) && Next(s, a).config == s.config
  {
    match a
    case Main(ok) => ProvidersOnMain(s, ok);
    case CallStop => ProvidersOnCall(s, false);
    case CallDrop => ProvidersOnCall(s, true);
    case _ => ProvidersOfOthers(s, a);
  }

  lemma {:induction false} ProvidersRun(s: State, actions: seq<Action>)
    requires ProvidersInv(s)
    ensures ProvidersInv(Run(s, actions)) && Run(s, actions).config == s.config
    decreases |actions|
  {
    if actions != [] {
      ProvidersStep(s, actions[0]);
      ProvidersRun(Next(s, actions[0]), actions[1..]);
    }
  }

  /**
   In every run: a trace handed to the user has every provider of a user-mode session enabled, and none of a kernel
   session; a `start` that failed on a provider has enabled fewer than all.
   */
  lemma {:induction false} ProvidersAreEnabled(config: Config, foreign: bool, actions: seq<Action>)
    ensures var s := Run(Init(config, foreign), actions);
            && (HandedOut(s) ==> s.enabled == if config.kernel then 0 else config.providers)
            && (s.pc == StartFailed(ProviderEnableFailed) ==> s.enabled < config.providers && !config.kernel)
            && (s.pc == StartFailed(SessionStartFailed) ==> s.enabled == 0)
  {
    ProvidersRun(Init(config, foreign), actions);
  }

  /**
   Left alone, a `start` that finds a session of its name gets one of its own exactly if it is a kernel session and
   the first call, the stop of the stale session and the second call all succeed.
   */
  lemma {:induction false} TakesOverIff(config: Config, first: bool, stop: bool, second: bool)
    ensures var s := Run(Init(config, true), [Main(first)] + ([Main(stop)] + ([Main(second)] + [])));
            s.session.Ours? <==> config.kernel && first && stop && second
  {
    var s0 := Init(config, true);
    var s1 := Next(s0, Main(first));
    var s2 := Next(s1, Main(stop));
    RunStep(s0, Main(first), [Main(stop)] + ([Main(second)] + []));
    RunStep(s1, Main(stop), [Main(second)] + []);
    RunStep(s2, Main(second), []);
  }

  /** Without such a session, the first call decides. */
  lemma {:induction false} StartsIff(config: Config, first: bool)
    ensures var s := Run(Init(config, false), [Main(first)] + []);
            && (s.session.Ours? <==> first)
            && (!first ==> s.pc == StartFailed(SessionStartFailed))
  {
    RunStep(Init(config, false), Main(first), []);
  }

  // ----- no callback without its context -----

  /** A callback runs although the context it was given is freed. */
  predicate Misfires(s: State) {
    s.thread == Processing(true) && s.context.Freed?
  }

  ghost predicate CanMisfire(s: State) {
    exists actions :: Misfires(Run(s, actions))
  }

  /** In every run in which the stop event was created, whoever may run callbacks has a live context. */
  lemma CallbacksHaveContext(config: Config, foreign: bool, actions: seq<Action>)
    ensures var s := Run(Init(config, foreign), actions);
            !s.eventFailed ==> !Misfires(s) && (s.thread.Processing? ==> s.context.Alive?)
  {
    InitHolds(config, foreign, actions);
  }

  /** The `EventTrace` has been handed to the user. */
  predicate HandedOut(s: State) {
    s.pc.Live? || s.pc.StopSession? || s.pc.CloseHandle? || s.pc.JoinThread? || s.pc.FreeContext? || s.pc.Gone?
  }

  lemma {:induction false} HandedOutIsSafe(s: State, actions: seq<Action>)
    requires Inv(s) && HandedOut(s)
    ensures !Misfires(Run(s, actions))
    decreases |actions|
  {
    if actions != [] {
      StepKeeps(s, actions[0]);
      HandedOutIsSafe(Next(s, actions[0]), actions[1..]);
    }
  }

  /**
   Where `start` creates the stop event with its thread already processing events, some continuation
   runs a callback on the freed context exactly if that creation fails.
   */
  lemma MisfiresIffEventFails(config: Config, foreign: bool, actions: seq<Action>, ok: bool)
    requires var s := Run(Init(config, foreign), actions); s.pc.CreateEvent? && s.thread.Processing?
    ensures CanMisfire(Next(Run(Init(config, foreign), actions), Main(ok))) <==> !ok
  {
    InitHolds(config, foreign, actions);
    var s := Run(Init(config, foreign), actions);
    var t := Next(s, Main(ok));
    StepKeeps(s, Main(ok));
    if ok {
      forall rest ensures !Misfires(Run(t, rest)) {
        HandedOutIsSafe(t, rest);
      }
    } else {
      assert Run(Next(t, CallbackEnters), []) == Next(t, CallbackEnters);
      assert Run(t, [CallbackEnters]) == Run(Next(t, CallbackEnters), [CallbackEnters][1..]);
      assert Misfires(Run(t, [CallbackEnters]));
    }
  }

  lemma RunStep(s: State, a: Action, rest: seq<Action>)
    ensures Run(s, [a] + rest) == Run(Next(s, a), rest)
  {
    assert ([a] + rest)[1..] == rest;
  }

  /** A start that got as far as its thread: the session started, the trace opened, the thread spawned. */
  const REACHED: seq<Action> := [Main(true)] + ([Main(true)] + ([Main(true)] + []))

  lemma ReachesEvent()
    ensures var s := Run(Init(Config(true, 0), false), REACHED);
            s == Init(Config(true, 0), false).(pc := CreateEvent, session := Ours, context := Alive,
                                                 thread := Processing(false), handleValid := true, opens := 1)
  {
    var s0 := Init(Config(true, 0), false);
    var s1 := Next(s0, Main(true));
    var s2 := Next(s1, Main(true));
    RunStep(s0, Main(true), [Main(true)] + ([Main(true)] + []));
    RunStep(s1, Main(true), [Main(true)] + []);
    RunStep(s2, Main(true), []);
  }

  /**
   A run in which the stop event cannot be created: a callback executes on the freed context, and the failed
   start has left its session behind.
   */
  lemma EventFailureMisfires()
    ensures var s := Run(Init(Config(true, 0), false), REACHED + ([Main(false)] + ([CallbackEnters] + [])));
            Misfires(s) && s.pc.StartFailed? && s.session.Ours?
  {
    var s := Run(Init(Config(true, 0), false), REACHED);
    ReachesEvent();
    RunConcat(Init(Config(true, 0), false), REACHED, [Main(false)] + ([CallbackEnters] + []));
    RunStep(s, Main(false), [CallbackEnters] + []);
    RunStep(Next(s, Main(false)), CallbackEnters, []);
  }

  // ----- handles and sessions -----

  /** The trace handle is closed at most once, never before it was opened, and exactly once when the trace is gone. */
  lemma HandleClosedOnce(config: Config, foreign: bool, actions: seq<Action>)
    ensures var s := Run(Init(config, foreign), actions);
            && s.closes <= s.opens <= 1 && s.stops <= 1
            && (s.pc.Gone? ==> s.closes == 1 && s.thread.Exited? && s.context.Freed?)
  {
    InitHolds(config, foreign, actions);
  }

  /**
   A `start` that failed leaves the session it created running exactly if the clean-up's
   ControlTraceW failed or the stop event could not be created, and nobody else stopped it; it never
   leaves a session behind when StartTraceW itself failed.
   */
  lemma FailedStartLeavesSessionIff(config: Config, foreign: bool, actions: seq<Action>)
    requires Run(Init(config, foreign), actions).pc.StartFailed?
    ensures var s := Run(Init(config, foreign), actions);
            && (s.session.Ours? <==> (s.cleanUpFailed || s.eventFailed) && !s.stoppedByOther)
            && (s.pc.error.SessionStartFailed? ==> !s.session.Ours?)
            && (s.eventFailed <==> s.pc.error.EventCreationFailed?)
            && !s.context.Alive?
  {
    InitHolds(config, foreign, actions);
  }

  // ----- stop -----

  predicate KeepsTrace(a: Action) {
    !a.CallDrop?
  }

  /** The trace is not dropped in these steps. */
  ghost predicate NoDrop(actions: seq<Action>) {
    forall i :: 0 <= i < |actions| ==> KeepsTrace(actions[i])
  }

  lemma NoDropParts(actions: seq<Action>, k: nat)
    requires NoDrop(actions) && k <= |actions|
    ensures NoDrop(actions[..k]) && NoDrop(actions[k..])
  {
    forall i | 0 <= i < |actions| - k ensures KeepsTrace(actions[k..][i]) {
      assert KeepsTrace(actions[k + i]);
    }
  }

  /**
   Once `stop` has returned, nothing but a drop changes anything of the trace, whatever the owner, its
   thread and other processes do: only other processes' sessions come and go.
   */
  lemma {:induction false} StopIsIdempotent(s: State, actions: seq<Action>)
    requires Inv(s) && s.pc.Live? && !s.started && NoDrop(actions)
    ensures var t := Run(s, actions); t == s.(session := t.session, stoppedByOther := t.stoppedByOther)
    decreases |actions|
  {
    if actions != [] {
      assert KeepsTrace(actions[0]);
      NoDropParts(actions, 1);
      StepKeeps(s, actions[0]);
      StopIsIdempotent(Next(s, actions[0]), actions[1..]);
    }
  }

  /** A `stop` is under way. */
  predicate Stopping(s: State) {
    s.pc.StopSession? || s.pc.CloseHandle? || s.pc.JoinThread?
  }

  /** The steps the owner still has to take in it. */
  function StepsLeft(pc: Pc): (n: nat)
  {
    match pc
    case StopSession(_) => 3
    case CloseHandle(_) => 2
    case JoinThread(_) => 1
    case _ => 0
  }

  /** The `stop` has returned: to the user, or to the drop that called it. */
  predicate Returned(s: State, dropping: bool) {
    && !s.started && s.closes == 1 && s.stops == 1 && s.thread.Exited?
    && if dropping then s.pc.FreeContext? || s.pc.Gone? else s.pc.Live?
  }

  function OwnerSteps(actions: seq<Action>): (n: nat)
  {
    if actions == [] then 0 else OwnerSteps(actions[1..]) + if actions[0].Main? then 1 else 0
  }

  /** `join` goes on exactly if the thread has exited. */
  lemma JoinsIff(s: State, ok: bool)
    requires Inv(s) && s.pc.JoinThread?
    ensures Next(s, Main(ok)) != s <==> s.thread.Exited?
    ensures s.thread.Exited? ==> Returned(Next(s, Main(ok)), s.pc.dropping)
  {
  }

  /**
   A step of anybody leaves a `stop` under way where it is or brings it one step on; a `stop` that returned stays
   so.
   */
  lemma StopStep(s: State, a: Action, dropping: bool)
    requires Inv(s) && KeepsTrace(a)
    requires (Stopping(s) && s.pc.dropping == dropping) || Returned(s, dropping)
    ensures var t := Next(s, a);
            && ((Stopping(t) && t.pc.dropping == dropping) || Returned(t, dropping))
            && (s.thread.Exited? ==> t.thread.Exited?)
            && (s.thread.Exited? ==>
                  StepsLeft(t.pc) <= if a.Main? && StepsLeft(s.pc) > 0 then StepsLeft(s.pc) - 1 else StepsLeft(s.pc))
            && StepsLeft(t.pc) <= StepsLeft(s.pc)
  {
  }

  lemma {:induction false} StopGoesOn(s: State, actions: seq<Action>, dropping: bool)
    requires Inv(s) && NoDrop(actions)
    requires (Stopping(s) && s.pc.dropping == dropping) || Returned(s, dropping)
    ensures var t := Run(s, actions);
            && Inv(t) && ((Stopping(t) && t.pc.dropping == dropping) || Returned(t, dropping))
            && (s.thread.Exited? ==> StepsLeft(t.pc) == 0 || StepsLeft(t.pc) + OwnerSteps(actions) <= StepsLeft(s.pc))
    decreases |actions|
  {
    if actions != [] {
      assert KeepsTrace(actions[0]);
      NoDropParts(actions, 1);
      StepKeeps(s, actions[0]);
      StopStep(s, actions[0], dropping);
      StopGoesOn(Next(s, actions[0]), actions[1..], dropping);
    }
  }

  lemma {:induction false} RunConcat(s: State, a: seq<Action>, b: seq<Action>)
    ensures Run(s, a + b) == Run(Run(s, a), b)
    decreases |a|
  {
    if a == [] {
      assert a + b == b;
    } else {
      RunConcat(Next(s, a[0]), a[1..], b);
      assert (a + b)[1..] == a[1..] + b;
    }
  }

  /**
   In every run from a `stop` under way, whatever its thread, other processes and the system's answers
   do: if the thread has exited after the first k steps and the owner then takes the steps it has left,
   at most three, at whatever points, the `stop` has returned, with the handle closed once and the thread gone.
   */
  lemma {:induction false} StopReturns(s: State, actions: seq<Action>, k: nat)
    requires Inv(s) && Stopping(s) && NoDrop(actions) && k <= |actions|
    requires Run(s, actions[..k]).thread.Exited?
    requires OwnerSteps(actions[k..]) >= StepsLeft(Run(s, actions[..k]).pc)
    ensures Returned(Run(s, actions), s.pc.dropping)
  {
    NoDropParts(actions, k);
    StopGoesOn(s, actions[..k], s.pc.dropping);
    StopGoesOn(Run(s, actions[..k]), actions[k..], s.pc.dropping);
    RunConcat(s, actions[..k], actions[k..]);
    assert actions[..k] + actions[k..] == actions;
  }

  /** So every `stop` and every `drop` of a started trace returns. */
  lemma {:induction false} CallReturns(s: State, dropping: bool, actions: seq<Action>, k: nat)
    requires Inv(s) && s.pc.Live? && s.started && NoDrop(actions) && k <= |actions|
    requires var t := Run(Next(s, if dropping then CallDrop else CallStop), actions[..k]);
             t.thread.Exited? && OwnerSteps(actions[k..]) >= StepsLeft(t.pc)
    ensures Returned(Run(Next(s, if dropping then CallDrop else CallStop), actions), dropping)
  {
    var a := if dropping then CallDrop else CallStop;
    StepKeeps(s, a);
    StopReturns(Next(s, a), actions, k);
  }

  /** A `drop` then frees the context, also that of a trace that was stopped before, with one more step of the owner. */
  lemma {:induction false} DropFrees(s: State, ok: bool)
    requires Inv(s) && (s.pc.FreeContext? || (s.pc.Live? && !s.started))
    ensures var t := Next(if s.pc.Live? then Next(s, CallDrop) else s, Main(ok));
            t.pc.Gone? && t.context.Freed? && t.thread.Exited? && t.closes == 1
  {
  }

  /**
   In every run: once `stop` has made its ControlTraceW call, the session that `start` created is still
   running exactly if that call failed and nobody else stopped it; `stop` reports success either way.
   */
  lemma StopLeavesSessionIff(config: Config, foreign: bool, actions: seq<Action>)
    requires Run(Init(config, foreign), actions).stops == 1
    ensures var s := Run(Init(config, foreign), actions); s.session.Ours? <==> s.stopFailed && !s.stoppedByOther
  {
    InitHolds(config, foreign, actions);
  }

  /** The steps of a `stop` whose ControlTraceW fails. */
  const FAILED_STOP: seq<Action> := [Main(false)] + ([Main(true)] + ([ThreadExits] + ([Main(true)] + [])))

  lemma FailedStopReturns(s: State)
    requires s.pc == StopSession(false) && s.thread == Processing(false) && s.handleValid
    requires s.session.Ours? && s.closes == 0 && s.stops == 0
    ensures var t := Run(s, FAILED_STOP); Returned(t, false) && t.session.Ours?
  {
    var s1 := Next(s, Main(false));
    var s2 := Next(s1, Main(true));
    var s3 := Next(s2, ThreadExits);
    RunStep(s, Main(false), [Main(true)] + ([ThreadExits] + ([Main(true)] + [])));
    RunStep(s1, Main(true), [ThreadExits] + ([Main(true)] + []));
    RunStep(s2, ThreadExits, [Main(true)] + []);
    RunStep(s3, Main(true), []);
  }

  /** A run in which `stop` has returned, the thread is gone and the session still runs. */
  lemma StoppedButRunning()
    ensures var s := Run(Init(Config(true, 0), false), REACHED + ([Main(true)] + ([CallStop] + FAILED_STOP)));
            Returned(s, false) && s.session.Ours?
  {
    var s := Run(Init(Config(true, 0), false), REACHED);
    ReachesEvent();
    RunConcat(Init(Config(true, 0), false), REACHED, [Main(true)] + ([CallStop] + FAILED_STOP));
    RunStep(s, Main(true), [CallStop] + FAILED_STOP);
    RunStep(Next(s, Main(true)), CallStop, FAILED_STOP);
    FailedStopReturns(Next(Next(s, Main(true)), CallStop));
  }
}
