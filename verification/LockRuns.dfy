/** What runs of vaibify/cli/commandStart.py's two threads show of the clock and of the watcher's looks. */
module LockRuns {
  import opened Numerals
  import opened LifecycleLock

  function Times(step: Step, steps: seq<Step>): nat { multiset(steps)[step] }

  /** The state after `more` steps that follow `steps`. */
  lemma {:induction false} RunsSplit(s: State, steps: seq<Step>, more: seq<Step>)
    requires Runs(s, steps + more)
    ensures Runs(s, steps) && Runs(After(s, steps), more)
    ensures After(s, steps + more) == After(After(s, steps), more)
    decreases |more|
  {
    if more == [] {
      assert steps + more == steps;
    } else {
      var init := more[..|more| - 1];
      assert (steps + more)[..|steps + more| - 1] == steps + init;
      RunsSplit(s, steps, init);
    }
  }

  lemma LastStep(s: State, steps: seq<Step>)
    requires steps != [] && Runs(s, steps)
    ensures var init, last := steps[..|steps| - 1], steps[|steps| - 1];
      Runs(s, init) && Enabled(After(s, init), last) && After(s, steps) == Taken(After(s, init), last) &&
      steps == init + [last]
  {
  }

  // ----- The clock -----

  lemma {:induction false} ClockCounts(s: State, steps: seq<Step>)
    requires Runs(s, steps)
    ensures After(s, steps).now == s.now + Times(Tick, steps)
    ensures After(s, steps).everRan <==> s.everRan || ContainerStarts in steps
    decreases |steps|
  {
    hide Runs, After, Taken, Enabled, Times;
    if steps == [] {
      hide *;
      NoSteps(s);
    } else {
      LastStep(s, steps);
      var init, last := steps[..|steps| - 1], steps[|steps| - 1];
      ClockCounts(s, init);
      CountLast(init, last);
      StepsCount(After(s, init), last);
    }
  }

  lemma CountLast(init: seq<Step>, last: Step)
    ensures forall x :: Times(x, init + [last]) == Times(x, init) + if x == last then 1 else 0
    ensures forall x :: x in init + [last] <==> x in init || x == last
  {
  }

  lemma StepsCount(s: State, step: Step)
    requires Enabled(s, step)
    ensures Taken(s, step).now == s.now + if step == Tick then 1 else 0
    ensures Taken(s, step).everRan <==> s.everRan || step == ContainerStarts
  {
  }

  lemma NoSteps(s: State)
    ensures Runs(s, []) && After(s, []) == s && forall x :: Times(x, []) == 0
  {
  }

  predicate Spawned(s: State) { s.launcher.Attached? || s.launcher.LauncherReleasing? || s.launcher.Left? }

  /** Once the watcher is spawned its deadline stays. */
  lemma {:induction false} DeadlineStays(s: State, steps: seq<Step>)
    requires Spawned(s) && Runs(s, steps)
    ensures Spawned(After(s, steps)) && After(s, steps).deadline == s.deadline
    decreases |steps|
  {
    hide Runs, After;
    if steps == [] {
      NoSteps(s);
    } else {
      LastStep(s, steps);
      DeadlineStays(s, steps[..|steps| - 1]);
    }
  }

  /** While the launcher is attached the lock goes only after the container was started or
      after three hundred seconds on the clock since the watcher was spawned. */
  lemma LostOnlyForCause(s: State, before: seq<Step>, rest: seq<Step>)
    requires Initial(s) && Runs(s, before) && After(s, before).launcher.BeforeSpawn?
    requires Runs(s, before + ([Proceed] + rest))
    requires After(s, before + ([Proceed] + rest)).launcher.Attached? && !After(s, before + ([Proceed] + rest)).held
    ensures ContainerStarts in before + ([Proceed] + rest) || Times(Tick, rest) >= 300
  {
    hide Runs, After, Invariant;
    var steps := before + ([Proceed] + rest);
    RunsSplit(s, before, [Proceed] + rest);
    var at := After(s, before);
    RunsSplit(at, [Proceed], rest);
    LastStep(at, [Proceed]);
    assert [Proceed][..0] == [];
    NoSteps(at);
    var spawned := After(at, [Proceed]);
    assert spawned == Proceeded(at) && spawned.deadline == at.now + 300;
    DeadlineStays(spawned, rest);
    ClockCounts(spawned, rest);
    ClockCounts(s, steps);
    ReleasedEarlyForCause(s, steps);
  }

  // ----- The watcher's looks -----

  predicate Looking(s: State) { s.watcher in {NotSpawned, Testing, Asking, Sleeping} }

  /** A watcher that has stopped looking never looks again. */
  lemma {:induction false} NeverLooksAgain(s: State, steps: seq<Step>)
    requires !Looking(s) && Spawned(s) && Runs(s, steps)
    ensures !Looking(After(s, steps)) && Spawned(After(s, steps))
    ensures Ask !in steps && Test !in steps && Wake !in steps
    decreases |steps|
  {
    hide Runs, After;
    if steps == [] {
      NoSteps(s);
    } else {
      LastStep(s, steps);
      NeverLooksAgain(s, steps[..|steps| - 1]);
    }
  }

  /** What ends the looking: the container seen running, the handle found gone, or the deadline. */
  predicate LastLook(s: State, step: Step) {
    (step.Ask? && s.running) || (step.Test? && (!s.held || s.now >= s.deadline))
  }

  /** After such a look the watcher asks and tests no more, whatever the other thread does. */
  lemma LookingEnds(s: State, before: seq<Step>, look: Step, rest: seq<Step>)
    requires Initial(s) && Runs(s, before) && LastLook(After(s, before), look)
    requires Runs(s, before + ([look] + rest))
    ensures Ask !in rest && Test !in rest && Wake !in rest
  {
    hide Runs, After, Invariant, Enabled;
    RunsSplit(s, before, [look] + rest);
    var at := After(s, before);
    RunsSplit(at, [look], rest);
    LastStep(at, [look]);
    assert [look][..0] == [];
    NoSteps(at);
    RunsKeepInvariant(s, before);
    StoppedLooking(at, look);
    NeverLooksAgain(After(at, [look]), rest);
  }

  lemma StoppedLooking(s: State, look: Step)
    requires Invariant(s) && Enabled(s, look) && LastLook(s, look)
    ensures !Looking(Taken(s, look)) && Spawned(Taken(s, look))
  {
  }

  lemma GoneStays(s: State, step: Step)
    requires !s.held && Spawned(s) && !s.watcher.NotSpawned? && Enabled(s, step)
    ensures !Taken(s, step).held && Spawned(Taken(s, step)) && !Taken(s, step).watcher.NotSpawned?
    ensures Taken(s, step).watcher.Asking? ==> s.watcher.Asking? && step != Ask
    ensures step == Ask ==> s.watcher.Asking?
  {
  }

  /** Once the handle is gone the container is asked about at most once more. */
  lemma {:induction false} OneMoreQuestion(s: State, steps: seq<Step>)
    requires !s.held && Spawned(s) && !s.watcher.NotSpawned? && Runs(s, steps)
    ensures !After(s, steps).held && Spawned(After(s, steps)) && !After(s, steps).watcher.NotSpawned?
    ensures Times(Ask, steps) + (if After(s, steps).watcher.Asking? then 1 else 0) <= if s.watcher.Asking? then 1 else 0
    decreases |steps|
  {
    hide Runs, After, Taken, Enabled, Times;
    if steps == [] {
      NoSteps(s);
    } else {
      LastStep(s, steps);
      var init, last := steps[..|steps| - 1], steps[|steps| - 1];
      OneMoreQuestion(s, init);
      CountLast(init, last);
      GoneStays(After(s, init), last);
    }
  }

  // ----- A detached start -----

  predicate DetachedOn(s: State) {
    s.watcher.NotSpawned? && (s.launcher.StartingDetached? || s.launcher.LauncherReleasing? || s.launcher.Left?)
  }

  lemma {:induction false} DetachedStays(s: State, steps: seq<Step>)
    requires DetachedOn(s) && Runs(s, steps)
    ensures DetachedOn(After(s, steps))
    decreases |steps|
  {
    hide Runs, After;
    if steps == [] {
      NoSteps(s);
    } else {
      LastStep(s, steps);
      DetachedStays(s, steps[..|steps| - 1]);
    }
  }

  /** A detached launcher starts no watcher: when it has left, it released the handle itself. */
  lemma DetachedReleasesItself(s: State, before: seq<Step>, rest: seq<Step>)
    requires Initial(s) && Runs(s, before + ([Detach] + rest))
    ensures var end := After(s, before + ([Detach] + rest));
      end.watcher.NotSpawned? && (end.launcher.Left? ==> end.releases == 1 && end.releasedBy == Some(TheLauncher))
  {
    hide Runs, After, Invariant;
    var steps := before + ([Detach] + rest);
    RunsSplit(s, before, [Detach] + rest);
    var at := After(s, before);
    RunsSplit(at, [Detach], rest);
    LastStep(at, [Detach]);
    assert [Detach][..0] == [];
    NoSteps(at);
    RunsKeepInvariant(s, before);
    DetachBegins(at);
    DetachedStays(After(at, [Detach]), rest);
    ReleasedExactlyOnce(s, steps);
    NoWatcherNoRelease(s, steps);
  }

  lemma DetachBegins(s: State)
    requires Invariant(s) && Enabled(s, Detach)
    ensures DetachedOn(Taken(s, Detach))
  {
  }

  lemma {:induction false} NoWatcherNoRelease(s: State, steps: seq<Step>)
    requires Initial(s) && Runs(s, steps) && After(s, steps).watcher.NotSpawned?
    ensures After(s, steps).releases > 0 ==> After(s, steps).releasedBy == Some(TheLauncher)
    decreases |steps|
  {
    hide Runs, After;
    if steps == [] {
      NoSteps(s);
    } else {
      LastStep(s, steps);
      NoWatcherNoRelease(s, steps[..|steps| - 1]);
    }
  }

  // ----- Going on -----

  /** Any step enabled where a run stands extends it. */
  lemma RunGrows(s: State, steps: seq<Step>, step: Step)
    requires Runs(s, steps) && Enabled(After(s, steps), step)
    ensures Runs(s, steps + [step]) && After(s, steps + [step]) == Taken(After(s, steps), step)
  {
    assert (steps + [step])[..|steps|] == steps;
  }

  /** However a run stands, at most three more steps of the watcher free the mutex it holds. */
  lemma MutexComesBack(s: State, steps: seq<Step>) returns (more: seq<Step>)
    requires Initial(s) && Runs(s, steps) && After(s, steps).mutex == Some(TheWatcher)
    ensures |more| <= 3 && (forall x | x in more :: x == WatcherStep)
    ensures Runs(s, steps + more) && After(s, steps + more).mutex == None
  {
    hide Runs, After, Invariant;
    RunsKeepInvariant(s, steps);
    WatcherIsInside(After(s, steps));
    more := StepsOut(s, steps);
  }

  lemma WatcherIsInside(s: State)
    requires Invariant(s) && s.mutex == Some(TheWatcher)
    ensures s.watcher.WatcherReleasing? && !s.watcher.phase.WantsMutex?
  {
  }

  function StepsLeft(s: State): nat {
    if !s.watcher.WatcherReleasing? then 0
    else match s.watcher.phase case WantsMutex => 0 case HasMutex => 3 case Closing => 2 case LeavingMutex => 1
  }

  lemma {:induction false} StepsOut(s: State, steps: seq<Step>) returns (more: seq<Step>)
    requires Runs(s, steps) && After(s, steps).mutex == Some(TheWatcher)
    requires After(s, steps).watcher.WatcherReleasing? && !After(s, steps).watcher.phase.WantsMutex?
    ensures |more| <= StepsLeft(After(s, steps)) && (forall x | x in more :: x == WatcherStep)
    ensures Runs(s, steps + more) && After(s, steps + more).mutex == None
    decreases StepsLeft(After(s, steps))
  {
    hide Runs, After;
    var leaving := After(s, steps).watcher.phase.LeavingMutex?;
    RunGrows(s, steps, WatcherStep);
    if leaving {
      more := [WatcherStep];
    } else {
      var rest := StepsOut(s, steps + [WatcherStep]);
      more := [WatcherStep] + rest;
      assert steps + [WatcherStep] + rest == steps + more;
    }
  }
}
