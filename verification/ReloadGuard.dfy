/** ReloadGuard under any interleaving of any number of Reload callers, one atomic action at a
    time, after one initial Store (internal/platform/refdata/reload_guard.go). */
module ReloadGuard {
  import opened Wrappers

  type Caller = nat

  /** What the loader gives back; Panics stands for a panic, which only the deferred Unlock sees. */
  datatype Load<T> = Value(value: T) | NilSnapshot | Fails(message: string) | Panics

  /** How an attempt that got the lock ended. */
  datatype Attempt<T> = Succeeded(value: T) | Failed(message: string) | Panicked

  datatype Phase<T> =
    | Idle
    | Locked                        // TryLock succeeded
    | Loading                       // inside Loader()
    | Failing(message: string)      // about to recordFailure
    | Loaded(value: T)              // about to snap.Store
    | Published(value: T)           // about to recordSuccess
    | Unlocking(attempt: Attempt<T>)

  /** The guard's fields, the callers' program counters, and two history variables: the snapshot
      when the lock was taken, and the ended attempts. */
  datatype State<T> = State(
    hasLoader: bool,
    snap: T,
    holder: Option<Caller>,
    lastReload: int,
    lastError: string,
    phases: map<Caller, Phase<T>>,
    atLock: T,
    attempts: seq<Attempt<T>>)

  datatype Action<T> =
    | TryLock
    | CallLoader
    | LoaderReturns(load: Load<T>)
    | StoreSnapshot
    | RecordSuccess(now: int)
    | RecordFailure
    | Unlock

  datatype Step<T> = Step(caller: Caller, action: Action<T>)

  const MISSING_LOADER := "refdata.ReloadGuard.Reload: refdata: parse failed"
  const NIL_SNAPSHOT := "refdata.ReloadGuard.Reload: loader returned nil snapshot: refdata: parse failed"

  /** After Store(initial) at time now. */
  function Init<T>(hasLoader: bool, initial: T, now: int): State<T> {
    State(hasLoader, initial, None, now, "", map[], initial, [])
  }

  function PhaseOf<T>(s: State<T>, c: Caller): Phase<T> {
    if c in s.phases then s.phases[c] else Idle
  }

  function Goto<T>(s: State<T>, c: Caller, p: Phase<T>): State<T> {
    s.(phases := s.phases[c := p])
  }

  /** One atomic action of one caller; None if the caller is not at that point. A TryLock that
      fails returns ErrReloadConflict and leaves everything as it is. */
  function Next<T>(s: State<T>, step: Step<T>): Option<State<T>> {
    var c := step.caller;
    match (step.action, PhaseOf(s, c))
    case (TryLock, Idle) =>
      if s.holder.Some? then Some(s)
      else Some(Goto(s.(holder := Some(c), atLock := s.snap), c, Locked))
    case (CallLoader, Locked) =>
      Some(Goto(s, c, if s.hasLoader then Loading else Failing(MISSING_LOADER)))
    case (LoaderReturns(load), Loading) =>
      Some(Goto(s, c, match load
                      case Value(v) => Loaded(v)
                      case NilSnapshot => Failing(NIL_SNAPSHOT)
                      case Fails(message) => Failing(message)
                      case Panics => Unlocking(Panicked)))
    case (StoreSnapshot, Loaded(v)) =>
      Some(Goto(s.(snap := v), c, Published(v)))
    case (RecordSuccess(now), Published(v)) =>
      Some(Goto(s.(lastReload := now, lastError := ""), c, Unlocking(Succeeded(v))))
    case (RecordFailure, Failing(message)) =>
      Some(Goto(s.(lastError := message), c, Unlocking(Failed(message))))
    case (Unlock, Unlocking(attempt)) =>
      Some(Goto(s.(holder := None, attempts := s.attempts + [attempt]), c, Idle))
    case _ => None
  }

  /** The state after a run; None if some action was not possible. */
  function Run<T>(s: State<T>, steps: seq<Step<T>>): Option<State<T>>
    decreases |steps|
  {
    if steps == [] then Some(s)
    else match Next(s, steps[0])
         case None => None
         case Some(s') => Run(s', steps[1..])
  }

  // ---------- the invariant ----------

  function Values<T>(attempts: seq<Attempt<T>>): seq<T> {
    if attempts == [] then [] else
      var k := |attempts| - 1;
      Values(attempts[..k]) + (if attempts[k].Succeeded? then [attempts[k].value] else [])
  }

  function Last<T>(initial: T, values: seq<T>): T {
    if values == [] then initial else values[|values| - 1]
  }

  /** The text the last attempt that reported at all left behind; "" for a success. */
  function LastReport<T>(attempts: seq<Attempt<T>>): string {
    if attempts == [] then "" else
      var k := |attempts| - 1;
      match attempts[k]
      case Succeeded(_) => ""
      case Failed(message) => message
      case Panicked => LastReport(attempts[..k])
  }

  /** The lock is held by exactly the caller that is not idle. */
  ghost predicate Exclusive<T>(s: State<T>) {
    forall c <- s.phases :: s.phases[c] != Idle <==> s.holder == Some(c)
  }

  /** What holds while the caller with the lock, if any, is in this phase. */
  ghost predicate PhaseInv<T>(s: State<T>, phase: Phase<T>, initial: T) {
    var published := Last(initial, Values(s.attempts));
    var report := LastReport(s.attempts);
    match phase
    case Idle => s.snap == published && s.lastError == report
    case Locked => s.snap == s.atLock == published && s.lastError == report
    case Loading => s.hasLoader && s.snap == s.atLock == published && s.lastError == report
    case Failing(_) => s.snap == s.atLock == published && s.lastError == report
    case Loaded(_) => s.snap == s.atLock == published && s.lastError == report
    case Published(v) => s.snap == v && s.atLock == published && s.lastError == report
    case Unlocking(Succeeded(v)) => s.snap == v && s.lastError == ""
    case Unlocking(Failed(message)) => s.snap == s.atLock == published && s.lastError == message
    case Unlocking(Panicked) => s.snap == s.atLock == published && s.lastError == report
  }

  function HolderPhase<T>(s: State<T>): Phase<T> {
    if s.holder.Some? then PhaseOf(s, s.holder.value) else Idle
  }

  ghost predicate Inv<T>(s: State<T>, initial: T) {
    && Exclusive(s)
    && (s.holder.Some? ==> s.holder.value in s.phases)
    && PhaseInv(s, HolderPhase(s), initial)
  }

  lemma InitInv<T>(hasLoader: bool, initial: T, now: int)
    ensures Inv(Init(hasLoader, initial, now), initial)
  {
  }

  /** Only the caller with the lock moves, or one that takes it, or nothing changes. */
  lemma NextExclusive<T>(s: State<T>, step: Step<T>)
    requires Exclusive(s) && (s.holder.Some? ==> s.holder.value in s.phases) && Next(s, step).Some?
    ensures var s' := Next(s, step).value;
            && Exclusive(s') && (s'.holder.Some? ==> s'.holder.value in s'.phases)
            && (s' != s ==>
                  && HolderPhase(s) == PhaseOf(s, step.caller)
                  && HolderPhase(s') == PhaseOf(s', step.caller))
  {
    assert PhaseOf(s, step.caller) != Idle ==> s.holder == Some(step.caller);
  }

  lemma UnlockInv<T>(s: State<T>, c: Caller, initial: T)
    requires PhaseOf(s, c).Unlocking? && PhaseInv(s, PhaseOf(s, c), initial)
    ensures PhaseInv(Next(s, Step(c, Unlock)).value, Idle, initial)
  {
    var attempts := s.attempts + [PhaseOf(s, c).attempt];
    assert attempts[..|s.attempts|] == s.attempts;
  }

  lemma PhaseNext<T>(s: State<T>, step: Step<T>, initial: T)
    requires Next(s, step).Some? && Next(s, step).value != s && !step.action.Unlock?
    requires PhaseInv(s, PhaseOf(s, step.caller), initial)
    ensures var s' := Next(s, step).value; PhaseInv(s', PhaseOf(s', step.caller), initial)
  {
    assert Next(s, step).value.attempts == s.attempts;
  }

  lemma NextInv<T>(s: State<T>, step: Step<T>, initial: T)
    requires Inv(s, initial) && Next(s, step).Some?
    ensures Inv(Next(s, step).value, initial)
  {
    NextExclusive(s, step);
    if Next(s, step).value != s {
      if step.action.Unlock? {
        UnlockInv(s, step.caller, initial);
      } else {
        PhaseNext(s, step, initial);
      }
    }
  }

  lemma {:induction false} RunInv<T>(s: State<T>, steps: seq<Step<T>>, initial: T)
    requires Inv(s, initial) && Run(s, steps).Some?
    ensures Inv(Run(s, steps).value, initial)
    decreases |steps|
  {
    if steps != [] {
      NextInv(s, steps[0], initial);
      RunInv(Next(s, steps[0]).value, steps[1..], initial);
    }
  }

  // ---------- what every interleaving guarantees ----------

  ghost predicate Reachable<T>(hasLoader: bool, initial: T, now: int, steps: seq<Step<T>>, s: State<T>) {
    Run(Init(hasLoader, initial, now), steps) == Some(s)
  }

  /** At most one loader runs at a time, and never for a guard without one. */
  lemma OneLoader<T>(hasLoader: bool, initial: T, now: int, steps: seq<Step<T>>, s: State<T>, a: Caller, b: Caller)
    requires Reachable(hasLoader, initial, now, steps, s)
    requires PhaseOf(s, a) == Loading && PhaseOf(s, b) != Idle
    ensures a == b && s.hasLoader
  {
    InitInv(hasLoader, initial, now);
    RunInv(Init(hasLoader, initial, now), steps, initial);
  }

  /** With no reload in flight the snapshot is the one published last, and the recorded error is
      that of the last attempt that reported. */
  lemma QuiescentState<T>(hasLoader: bool, initial: T, now: int, steps: seq<Step<T>>, s: State<T>)
    requires Reachable(hasLoader, initial, now, steps, s)
    requires s.holder.None?
    ensures s.snap == Last(initial, Values(s.attempts))
    ensures s.lastError == LastReport(s.attempts)
  {
    InitInv(hasLoader, initial, now);
    RunInv(Init(hasLoader, initial, now), steps, initial);
  }

  /** Hence the error is empty after a success, but also after a failure without a text, and a
      panic leaves it as it was: for an attempt last in line it is empty exactly as stated. */
  lemma EmptyErrorExactly<T>(hasLoader: bool, initial: T, now: int, steps: seq<Step<T>>, s: State<T>)
    requires Reachable(hasLoader, initial, now, steps, s)
    requires s.holder.None? && s.attempts != []
    ensures var k := |s.attempts| - 1;
            s.lastError == "" <==> match s.attempts[k]
              case Succeeded(_) => true
              case Failed(message) => message == ""
              case Panicked => LastReport(s.attempts[..k]) == ""
  {
    QuiescentState(hasLoader, initial, now, steps, s);
  }

  /** A reload that ends without success leaves the snapshot as it was when it got the lock; one
      that succeeds leaves its own value. */
  lemma AttemptEffect<T>(hasLoader: bool, initial: T, now: int, steps: seq<Step<T>>, s: State<T>, c: Caller)
    requires Reachable(hasLoader, initial, now, steps, s)
    requires PhaseOf(s, c).Unlocking?
    ensures match PhaseOf(s, c).attempt
            case Succeeded(v) => s.snap == v
            case _ => s.snap == s.atLock == Last(initial, Values(s.attempts))
  {
    InitInv(hasLoader, initial, now);
    RunInv(Init(hasLoader, initial, now), steps, initial);
  }

  /** Only the caller holding the lock can move the snapshot or the status, so that a conflict,
      and everything any other caller does meanwhile, changes nothing. */
  lemma OthersChangeNothing<T>(hasLoader: bool, initial: T, now: int, steps: seq<Step<T>>, s: State<T>, step: Step<T>)
    requires Reachable(hasLoader, initial, now, steps, s)
    requires s.holder.Some? && s.holder != Some(step.caller) && Next(s, step).Some?
    ensures step.action.TryLock? && Next(s, step) == Some(s)
  {
    InitInv(hasLoader, initial, now);
    RunInv(Init(hasLoader, initial, now), steps, initial);
  }

  /** While a reload is in flight its snapshot is the old one until it is stored, and the error of
      the previous report until it is recorded; readers can see a new snapshot with an old error. */
  lemma InFlight<T>(hasLoader: bool, initial: T, now: int, steps: seq<Step<T>>, s: State<T>, c: Caller)
    requires Reachable(hasLoader, initial, now, steps, s)
    requires PhaseOf(s, c) != Idle && !PhaseOf(s, c).Unlocking?
    ensures s.lastError == LastReport(s.attempts)
    ensures s.snap == if PhaseOf(s, c).Published? then PhaseOf(s, c).value else Last(initial, Values(s.attempts))
  {
    InitInv(hasLoader, initial, now);
    RunInv(Init(hasLoader, initial, now), steps, initial);
  }

  // ---------- the guard as an object: one call of Reload without interference ----------

  /** The actions of a call that gets the lock. */
  function ReloadSteps<T>(c: Caller, hasLoader: bool, load: Load<T>, now: int): seq<Step<T>> {
    [Step(c, TryLock), Step(c, CallLoader)] +
    (if !hasLoader then [Step(c, RecordFailure)]
     else [Step(c, LoaderReturns(load))] + match load {
       case Value(_) => [Step(c, StoreSnapshot), Step(c, RecordSuccess(now))]
       case Panics => []
       case _ => [Step(c, RecordFailure)]
     }) +
    [Step(c, Unlock)]
  }

  datatype ReloadResult = Done | Conflict | Error(message: string) | Panic

  class Guard<T> {
    const hasLoader: bool
    var snap: T
    var locked: bool
    var lastReload: int
    var lastError: string

    constructor Store(hasLoader: bool, snap: T, now: int)
      ensures View() == Init(hasLoader, snap, now)
    {
      this.hasLoader, this.snap, locked, lastReload, lastError := hasLoader, snap, false, now, "";
    }

    /** The state machine's view of the guard, with nothing in flight. */
    ghost function View(): State<T>
      reads this
    {
      State(hasLoader, snap, None, lastReload, lastError, map[], snap, [])
    }

    method TryLock() returns (ok: bool)
      modifies this`locked
      ensures ok == !old(locked) && locked
    {
      ok := !locked;
      locked := true;
    }

    method RecordSuccess(now: int)
      modifies this`lastReload, this`lastError
      ensures lastReload == now && lastError == ""
    {
      lastReload, lastError := now, "";
    }

    method RecordFailure(message: string)
      modifies this`lastError
      ensures lastError == message
    {
      lastError := message;
    }

    /** A conflict leaves the guard as it is; otherwise the call is the run of its actions. */
    method Reload(load: Load<T>, now: int) returns (r: ReloadResult)
      modifies this
      ensures old(locked) ==> r == Conflict && View() == old(View()) && locked
      ensures !old(locked) ==>
                var end := Run(old(View()), ReloadSteps(0, hasLoader, load, now));
                && !locked && r != Conflict && end.Some?
                && snap == end.value.snap && lastError == end.value.lastError && lastReload == end.value.lastReload
                && (r == Done <==> end.value.attempts == [Succeeded(snap)])
      ensures !old(locked) && !hasLoader ==>
                r == Error("refdata.ReloadGuard.Reload: refdata: parse failed") && lastError == r.message
      ensures !old(locked) && hasLoader ==>
                match load
                case Value(v) => r == Done && snap == v && lastReload == now && lastError == ""
                case Fails(message) => r == Error("refdata.ReloadGuard.Reload: " + message) && lastError == message
                case NilSnapshot =>
                  && r == Error("refdata.ReloadGuard.Reload: loader returned nil snapshot: refdata: parse failed")
                  && lastError == r.message
                case Panics => r == Panic && lastError == old(lastError)
      ensures !old(locked) && !(hasLoader && load.Value?) ==> snap == old(snap) && lastReload == old(lastReload)
    {
      ghost var s0 := View();
      var free := TryLock();
      if !free {
        return Conflict;
      }
      SoloRun(s0, load, now);
      if !hasLoader {
        RecordFailure(MISSING_LOADER);
        r := Error(MISSING_LOADER);
      } else {
        match load
        case Panics => r := Panic;
        case Fails(message) =>
          RecordFailure(message);
          r := Error("refdata.ReloadGuard.Reload: " + message);
        case NilSnapshot =>
          RecordFailure(NIL_SNAPSHOT);
          r := Error(NIL_SNAPSHOT);
        case Value(v) =>
          snap := v;
          RecordSuccess(now);
          r := Done;
      }
      locked := false;
    }
  }

  function AttemptOf<T>(hasLoader: bool, load: Load<T>): Attempt<T> {
    if !hasLoader then Failed(MISSING_LOADER)
    else match load
      case Value(v) => Succeeded(v)
      case NilSnapshot => Failed(NIL_SNAPSHOT)
      case Fails(message) => Failed(message)
      case Panics => Panicked
  }

  /** The actions of an undisturbed call can all be taken, and what they amount to. */
  lemma SoloRun<T>(s: State<T>, load: Load<T>, now: int)
    requires s.holder.None? && s.phases == map[] && s.attempts == []
    ensures var end := Run(s, ReloadSteps(0, s.hasLoader, load, now));
            end.Some? && SoloEnd(s, end.value, AttemptOf(s.hasLoader, load), now)
  {
    if !s.hasLoader {
      SoloMissing(s, load, now);
    } else if load.Panics? {
      SoloPanics(s, now);
    } else if load.Value? {
      SoloValue(s, load.value, now);
    } else {
      SoloFails(s, load, now);
    }
  }

  ghost predicate SoloEnd<T>(s: State<T>, end: State<T>, attempt: Attempt<T>, now: int) {
    && end.holder.None? && end.attempts == [attempt]
    && match attempt {
         case Succeeded(v) => end.snap == v && end.lastReload == now && end.lastError == ""
         case Failed(m) => end.snap == s.snap && end.lastReload == s.lastReload && end.lastError == m
         case Panicked => end.snap == s.snap && end.lastReload == s.lastReload && end.lastError == s.lastError
       }
  }

  lemma SoloMissing<T>(s: State<T>, load: Load<T>, now: int)
    requires s.holder.None? && s.phases == map[] && s.attempts == [] && !s.hasLoader
    ensures var end := Run(s, ReloadSteps(0, s.hasLoader, load, now));
            end.Some? && SoloEnd(s, end.value, Failed(MISSING_LOADER), now)
  {
    var steps := ReloadSteps(0, s.hasLoader, load, now);
    var s2 := RunTwo(s, steps);
    var s4 := RunTwo(s2, steps[2..]);
    assert steps[2..][2..] == [];
  }

  lemma SoloPanics<T>(s: State<T>, now: int)
    requires s.holder.None? && s.phases == map[] && s.attempts == [] && s.hasLoader
    ensures var end := Run(s, ReloadSteps(0, s.hasLoader, Panics, now));
            end.Some? && SoloEnd(s, end.value, Panicked, now)
  {
    var steps := ReloadSteps(0, s.hasLoader, Load<T>.Panics, now);
    var s2 := RunTwo(s, steps);
    var s4 := RunTwo(s2, steps[2..]);
    assert steps[2..][2..] == [];
  }

  lemma SoloValue<T>(s: State<T>, v: T, now: int)
    requires s.holder.None? && s.phases == map[] && s.attempts == [] && s.hasLoader
    ensures var end := Run(s, ReloadSteps(0, s.hasLoader, Value(v), now));
            end.Some? && SoloEnd(s, end.value, Succeeded(v), now)
  {
    var steps := ReloadSteps(0, s.hasLoader, Value(v), now);
    var s2 := RunTwo(s, steps);
    var s4 := RunTwo(s2, steps[2..]);
    assert steps[2..][2..] == steps[4..];
    var s6 := RunTwo(s4, steps[4..]);
    assert steps[4..][2..] == [];
  }

  lemma SoloFails<T>(s: State<T>, load: Load<T>, now: int)
    requires s.holder.None? && s.phases == map[] && s.attempts == [] && s.hasLoader
    requires load.Fails? || load.NilSnapshot?
    ensures var end := Run(s, ReloadSteps(0, s.hasLoader, load, now));
            end.Some? && SoloEnd(s, end.value, AttemptOf(true, load), now)
  {
    var steps := ReloadSteps(0, s.hasLoader, load, now);
    var s2 := RunTwo(s, steps);
    var s4 := RunTwo(s2, steps[2..]);
    assert steps[2..][2..] == steps[4..] && steps[4..][1..] == [];
  }

  lemma RunTwo<T>(s: State<T>, steps: seq<Step<T>>) returns (s2: State<T>)
    requires |steps| >= 2 && Next(s, steps[0]).Some? && Next(Next(s, steps[0]).value, steps[1]).Some?
    ensures s2 == Next(Next(s, steps[0]).value, steps[1]).value
    ensures Run(s, steps) == Run(s2, steps[2..])
  {
    s2 := Next(Next(s, steps[0]).value, steps[1]).value;
    assert steps[1..][1..] == steps[2..];
  }
}
