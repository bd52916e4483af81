/** vaibify/cli/commandStart.py: the launcher and the watcher thread share one lifecycle handle. */
module LifecycleLock {
  import opened Numerals

  const LOCK_SECONDS := 300

  // ----- The holder, called from one thread at a time -----

  /** The holder dictionary; `released` counts the calls of `fnReleaseLifecycleLock`. */
  class Holder {
    var handle: Option<nat>
    var released: seq<nat>

    /** `fdictTakeLifecycleLockOrExit`, once the lock is granted. */
    constructor (granted: nat)
      ensures handle == Some(granted) && released == []
    {
      handle, released := Some(granted), [];
    }

    /** `fnReleaseHeldLifecycleLock` */
    method ReleaseHeld()
      modifies this
      ensures handle == None
      ensures released == old(released) + (if old(handle).Some? then [old(handle).value] else [])
    {
      var popped := handle;
      handle := None;
      if popped.Some? { released := released + [popped.value]; }
    }
  }

  /** However often the holder is released, the handle it was given is released exactly once. */
  method ReleaseManyTimes(granted: nat, times: nat) returns (released: seq<nat>)
    ensures released == if times == 0 then [] else [granted]
  {
    var holder := new Holder(granted);
    for i := 0 to times
      invariant holder.handle == (if i == 0 then Some(granted) else None)
      invariant holder.released == if i == 0 then [] else [granted]
    {
      holder.ReleaseHeld();
    }
    return holder.released;
  }

  // ----- The two threads -----

  datatype Thread = TheLauncher | TheWatcher

  /** Where a thread stands inside `fnReleaseHeldLifecycleLock`. */
  datatype Release = WantsMutex | HasMutex | Closing | LeavingMutex

  datatype LauncherAt =
    | CheckingRename | Clearing | Choosing
    | StartingDetached | BeforeSpawn | Attached
    | LauncherReleasing(phase: Release)
    | Left

  /** Why the watcher stopped polling. */
  datatype Cause = SawRunning | PassedDeadline | FoundReleased

  datatype WatcherAt =
    | NotSpawned | Testing | Asking | Sleeping
    | WatcherReleasing(cause: Cause, phase: Release)
    | Ended

  datatype State = State(
    held: bool, mutex: Option<Thread>, launcher: LauncherAt, watcher: WatcherAt,
    now: nat, deadline: nat, running: bool, everRan: bool,
    releases: nat, releasedBy: Option<Thread>)

  datatype Step =
    | Proceed | Detach | Attach | Fail            // the launcher's own work; Fail is any exception or exit
    | LauncherStep | WatcherStep                  // the next step inside the release
    | Test | Ask | Wake | WatcherDies             // the watcher's polling loop
    | Tick | ContainerStarts | ContainerStops     // the world

  predicate Initial(s: State) {
    && s.held && s.mutex.None? && s.launcher.CheckingRename? && s.watcher.NotSpawned?
    && !s.everRan && !s.running && s.releases == 0 && s.releasedBy.None?
  }

  predicate CanRelease(s: State, phase: Release) { phase.WantsMutex? ==> s.mutex.None? }

  predicate Enabled(s: State, step: Step) {
    match step
    case Proceed => s.launcher in {CheckingRename, Clearing, StartingDetached, BeforeSpawn, Attached}
    case Detach => s.launcher == Choosing
    case Attach => s.launcher == Choosing
    case Fail => s.launcher in {CheckingRename, Clearing, Choosing, StartingDetached, BeforeSpawn, Attached}
    case LauncherStep => s.launcher.LauncherReleasing? && CanRelease(s, s.launcher.phase)
    case WatcherStep => s.watcher.WatcherReleasing? && CanRelease(s, s.watcher.phase)
    case Test => s.watcher == Testing
    case Ask => s.watcher == Asking
    case Wake => s.watcher == Sleeping
    case WatcherDies => s.watcher == Asking
    case Tick => true
    case ContainerStarts => s.launcher in {StartingDetached, Attached}
    case ContainerStops => s.running
  }

  /** The launcher's step when nothing goes wrong; leaving the last one enters the `finally`. */
  function Proceeded(s: State): State {
    match s.launcher
    case CheckingRename => s.(launcher := Clearing)
    case Clearing => s.(launcher := Choosing)
    case BeforeSpawn => s.(launcher := Attached, watcher := Testing, deadline := s.now + LOCK_SECONDS)
    case _ => s.(launcher := LauncherReleasing(WantsMutex))
  }

  /** One step of the release by thread `t`, from its phase. */
  function Released(s: State, t: Thread, phase: Release): State {
    match phase
    case WantsMutex => s.(mutex := Some(t))
    case HasMutex => s.(held := false)
    case Closing => s.(releases := s.releases + 1, releasedBy := Some(t))
    case LeavingMutex => s.(mutex := None)
  }

  /** The phase that follows: the pop decides whether there is a handle to close. */
  function NextPhase(s: State, phase: Release): Option<Release> {
    match phase
    case WantsMutex => Some(HasMutex)
    case HasMutex => Some(if s.held then Closing else LeavingMutex)
    case Closing => Some(LeavingMutex)
    case LeavingMutex => None
  }

  function Taken(s: State, step: Step): State
    requires Enabled(s, step)
  {
    match step
    case Proceed => Proceeded(s)
    case Detach => s.(launcher := StartingDetached)
    case Attach => s.(launcher := BeforeSpawn)
    case Fail => s.(launcher := LauncherReleasing(WantsMutex))
    case LauncherStep =>
      var next := NextPhase(s, s.launcher.phase);
      Released(s, TheLauncher, s.launcher.phase).(launcher := if next.Some? then LauncherReleasing(next.value) else Left)
    case WatcherStep =>
      var next := NextPhase(s, s.watcher.phase);
      Released(s, TheWatcher, s.watcher.phase)
        .(watcher := if next.Some? then WatcherReleasing(s.watcher.cause, next.value) else Ended)
    case Test =>
      s.(watcher := if !s.held then WatcherReleasing(FoundReleased, WantsMutex)
                    else if s.now >= s.deadline then WatcherReleasing(PassedDeadline, WantsMutex)
                    else Asking)
    case Ask => s.(watcher := if s.running then WatcherReleasing(SawRunning, WantsMutex) else Sleeping)
    case Wake => s.(watcher := Testing)
    case WatcherDies => s.(watcher := Ended)
    case Tick => s.(now := s.now + 1)
    case ContainerStarts => s.(running := true, everRan := true)
    case ContainerStops => s.(running := false)
  }

  // ----- The invariant -----

  predicate InRelease(phase: Release) { !phase.WantsMutex? }

  predicate LauncherInside(s: State) { s.launcher.LauncherReleasing? && InRelease(s.launcher.phase) }

  predicate WatcherInside(s: State) { s.watcher.WatcherReleasing? && InRelease(s.watcher.phase) }

  predicate LauncherCloses(s: State) { s.launcher.LauncherReleasing? && s.launcher.phase.Closing? }

  predicate WatcherCloses(s: State) { s.watcher.WatcherReleasing? && s.watcher.phase.Closing? }

  /** Who is inside the release holds the mutex, and only one thread is. */
  predicate MutexHeld(s: State) {
    && (s.mutex == Some(TheLauncher) <==> LauncherInside(s))
    && (s.mutex == Some(TheWatcher) <==> WatcherInside(s))
  }

  /** The handle is in the dictionary, in one thread's hand, or released: exactly one of the three. */
  predicate HandleConserved(s: State) {
    (if s.held then 1 else 0) + (if LauncherCloses(s) then 1 else 0) + (if WatcherCloses(s) then 1 else 0) + s.releases == 1
  }

  /** A thread past its pop leaves nothing in the dictionary. */
  predicate Popped(s: State) {
    && (s.launcher.LauncherReleasing? && s.launcher.phase in {Closing, LeavingMutex} ==> !s.held)
    && (s.watcher.WatcherReleasing? && s.watcher.phase in {Closing, LeavingMutex} ==> !s.held)
    && (s.launcher.Left? ==> !s.held && !WatcherCloses(s))
    && (s.launcher.LauncherReleasing? && s.launcher.phase == LeavingMutex ==> s.releases == 1)
  }

  predicate BeforeWatcher(s: State) {
    s.launcher in {CheckingRename, Clearing, Choosing, StartingDetached, BeforeSpawn} ==> s.watcher.NotSpawned? && s.held
  }

  predicate GoodCause(s: State, cause: Cause) {
    match cause
    case SawRunning => s.everRan
    case PassedDeadline => s.now >= s.deadline
    case FoundReleased => !s.held && !s.launcher.Attached?
  }

  /** The watcher acts for a reason, and what it released it released for one of the first two. */
  predicate Justified(s: State) {
    && (s.watcher.WatcherReleasing? ==> GoodCause(s, s.watcher.cause))
    && (s.watcher.WatcherReleasing? && s.watcher.phase.Closing? ==> !s.watcher.cause.FoundReleased?)
    && (s.releasedBy == Some(TheWatcher) ==> s.everRan || s.now >= s.deadline)
    && (s.running ==> s.everRan)
    && (s.releases == 0 <==> s.releasedBy.None?)
    && (s.launcher.Attached? && !s.held ==> WatcherCloses(s) || s.releasedBy == Some(TheWatcher))
    && (s.launcher.Attached? && s.watcher in {Testing, Asking, Sleeping} ==> s.held)
  }

  predicate Invariant(s: State) {
    MutexHeld(s) && HandleConserved(s) && Popped(s) && BeforeWatcher(s) && Justified(s)
  }

  lemma InitiallyInvariant(s: State)
    requires Initial(s)
    ensures Invariant(s)
  {
  }

  lemma StepKeepsMutex(s: State, step: Step)
    requires Invariant(s) && Enabled(s, step)
    ensures MutexHeld(Taken(s, step)) && HandleConserved(Taken(s, step))
  {
  }

  lemma StepKeepsPopped(s: State, step: Step)
    requires Invariant(s) && Enabled(s, step)
    ensures Popped(Taken(s, step)) && BeforeWatcher(Taken(s, step))
  {
  }

  lemma StepKeepsJustified(s: State, step: Step)
    requires Invariant(s) && Enabled(s, step)
    ensures Justified(Taken(s, step))
  {
  }

  // ----- Every interleaving -----

  /** A run: each step is enabled where it is taken. */
  predicate Runs(s: State, steps: seq<Step>)
    decreases |steps|, 0
  {
    steps == [] || (Runs(s, steps[..|steps| - 1]) && Enabled(After(s, steps[..|steps| - 1]), steps[|steps| - 1]))
  }

  function After(s: State, steps: seq<Step>): State
    requires Runs(s, steps)
    decreases |steps|, 1
  {
    if steps == [] then s else Taken(After(s, steps[..|steps| - 1]), steps[|steps| - 1])
  }

  lemma {:induction false} RunsKeepInvariant(s: State, steps: seq<Step>)
    requires Initial(s) && Runs(s, steps)
    ensures Invariant(After(s, steps))
    decreases |steps|
  {
    hide Invariant, Taken, Enabled;
    if steps == [] {
      InitiallyInvariant(s);
    } else {
      RunsKeepInvariant(s, steps[..|steps| - 1]);
      StepKeepsInvariant(After(s, steps[..|steps| - 1]), steps[|steps| - 1]);
    }
  }

  lemma StepKeepsInvariant(s: State, step: Step)
    requires Invariant(s) && Enabled(s, step)
    ensures Invariant(Taken(s, step))
  {
    hide Taken, Enabled, MutexHeld, HandleConserved, Popped, BeforeWatcher, Justified;
    StepKeepsMutex(s, step);
    StepKeepsPopped(s, step);
    StepKeepsJustified(s, step);
  }

  /** In every interleaving the handle is released at most once, and exactly once when the launcher has left. */
  lemma ReleasedExactlyOnce(s: State, steps: seq<Step>)
    requires Initial(s) && Runs(s, steps)
    ensures After(s, steps).releases <= 1
    ensures After(s, steps).launcher.Left? ==> After(s, steps).releases == 1
  {
    hide Runs, After;
    RunsKeepInvariant(s, steps);
  }

  /** Nothing lands between the clear, the create and the start: until the watcher runs, the lock is held. */
  lemma HeldUntilWatched(s: State, steps: seq<Step>)
    requires Initial(s) && Runs(s, steps)
    requires After(s, steps).launcher in {CheckingRename, Clearing, Choosing, StartingDetached, BeforeSpawn}
    ensures After(s, steps).held && After(s, steps).releases == 0
  {
    hide Runs, After;
    RunsKeepInvariant(s, steps);
  }

  /** While the launcher is attached the lock is only gone when the watcher released it, or is doing so,
      after the container ran or the deadline passed. */
  lemma ReleasedEarlyForCause(s: State, steps: seq<Step>)
    requires Initial(s) && Runs(s, steps)
    requires After(s, steps).launcher.Attached? && !After(s, steps).held
    ensures After(s, steps).everRan || After(s, steps).now >= After(s, steps).deadline
  {
    hide Runs, After;
    RunsKeepInvariant(s, steps);
  }

  // ----- No deadlock -----

  predicate SomeoneMoves(s: State) {
    Enabled(s, Fail) || Enabled(s, LauncherStep) || (s.mutex == Some(TheWatcher) && Enabled(s, WatcherStep))
  }

  /** The launcher can always move, or the watcher holds the mutex and can give it back. */
  lemma NeverStuck(s: State, steps: seq<Step>)
    requires Initial(s) && Runs(s, steps) && !After(s, steps).launcher.Left?
    ensures SomeoneMoves(After(s, steps))
  {
    hide Runs, After;
    RunsKeepInvariant(s, steps);
    SomeoneCanMove(After(s, steps));
  }

  lemma SomeoneCanMove(s: State)
    requires Invariant(s) && !s.launcher.Left?
    ensures SomeoneMoves(s)
  {
    match s.launcher
    case LauncherReleasing(phase) =>
      match s.mutex {
        case None =>
        case Some(t) => assert t.TheLauncher? || t.TheWatcher?;
      }
    case _ =>
  }

  /** Steps inside the release that a thread still has before it. */
  function Remaining(phase: Release): nat {
    match phase case WantsMutex => 4 case HasMutex => 3 case Closing => 2 case LeavingMutex => 1
  }

  /** The mutex is free, or the watcher still has it and has fewer steps before it. */
  predicate GivesBack(s: State, next: State) {
    && s.watcher.WatcherReleasing?
    && (next.mutex.None? || (next.mutex == Some(TheWatcher) && next.watcher.WatcherReleasing? && Remaining(next.watcher.phase) < Remaining(s.watcher.phase)))
  }

  /** Each step of the watcher inside the mutex brings it closer to giving the mutex back. */
  lemma MutexIsReturned(s: State)
    requires Invariant(s) && s.mutex == Some(TheWatcher)
    ensures Enabled(s, WatcherStep)
    ensures GivesBack(s, Taken(s, WatcherStep))
  {
  }
}
