/**
  * One replica's Start: the elector, the goroutine that runs the controllers, the freshness watcher and the main
  * goroutine, interleaved in any order with each other, with the parent's cancellation and with other replicas.
  */
module Leadership {
  import opened Desire
  import LeaseGate

  // ----------------------------------------------------------- the lock and the gate

  /** The largest duration, in seconds: 2^63 - 1 nanoseconds. */
  const MAX_DURATION: real := 9223372036.854775807

  /** Records the issue time of each successful Lease write. */
  class TrackingLock {
    var lastSuccess: Option<real>

    constructor ()
      ensures lastSuccess == None
    {
      lastSuccess := None;
    }

    method MarkSuccess(at: real)
      modifies this
      ensures lastSuccess == LeaseGate.MarkSuccess(old(lastSuccess), at)
      ensures lastSuccess.Some? && lastSuccess.value >= at
      ensures old(lastSuccess).Some? ==> lastSuccess.value >= old(lastSuccess).value
    {
      if lastSuccess.None? || at > lastSuccess.value {
        lastSuccess := Some(at);
      }
    }

    /** Create and Update: the time recorded is the one read before the call, whenever the response is handled. */
    method Write(started: real, accepted: bool) returns (ok: bool)
      modifies this
      ensures ok == accepted
      ensures lastSuccess == if accepted then LeaseGate.MarkSuccess(old(lastSuccess), started) else old(lastSuccess)
    {
      if !accepted { return false; }
      MarkSuccess(started);
      return true;
    }

    /** The age of the last success; a lock that never succeeded is as stale as a duration can say. */
    function SinceLastSuccess(now: real): real
      reads this
    {
      if lastSuccess.None? then MAX_DURATION else now - lastSuccess.value
    }
  }

  class StaleGate {
    const lock: TrackingLock
    var cancelled: bool

    constructor (lock: TrackingLock)
      ensures this.lock == lock && !cancelled
    {
      this.lock := lock;
      cancelled := false;
    }

    /** Denies, and cancels the controllers' context for good, once the last success is older than the bound. */
    method CanWrite(now: real) returns (ok: bool)
      modifies this
      ensures ok <==> lock.lastSuccess.Some? && now - lock.lastSuccess.value <= LeaseGate.BOUND
      ensures cancelled == (old(cancelled) || !ok)
    {
      if lock.SinceLastSuccess(now) > LeaseGate.BOUND {
        cancelled := true;
        return false;
      }
      return true;
    }

    /**
      * WriteContext: one clock reading for the remaining window, a second for the deadline. The deadline exceeds the
      * last success plus the bound by at most the time between the two readings; without a success it has passed.
      */
    method WriteContext(timeout: real, measured: real, made: real) returns (deadline: real)
      requires timeout >= 0.0 && measured <= made
      ensures deadline <= made + timeout
      ensures lock.lastSuccess.None? ==> deadline < made
      ensures lock.lastSuccess.Some? ==>
                var limit := lock.lastSuccess.value + LeaseGate.BOUND + (made - measured);
                deadline == if limit < made + timeout then limit else made + timeout
    {
      var remaining := LeaseGate.BOUND - lock.SinceLastSuccess(measured);
      if remaining < timeout { return made + remaining; }
      return made + timeout;
    }
  }

  // -------------------------------------------------------------- the Start protocol

  datatype Controller = NotStarted | Running | Returned(failed: bool)

  datatype Elector = Acquiring | Acquired | Leading | Stopped

  datatype Callback = NotSpawned | Spawned | Started | Sent

  datatype Result = ControllerResult(failed: bool) | LeadershipLost

  datatype MainPhase =
    | Electing | Draining | Deciding(failed: bool) | Reading(failed: bool) | Releasing(failed: bool, rv: nat)
    | Exited(result: Result)

  datatype State = State(
    parentCancelled: bool, electionCancelled: bool, runCancelled: bool,
    elector: Elector, succeeded: bool,
    callback: Callback, controllers: seq<Controller>, watching: bool, finished: Option<bool>,
    main: MainPhase,
    holder: Option<nat>, rv: nat, handedOver: bool)

  datatype Step =
    | CancelParent
    | AcquireWrite | SpawnCallback | GiveUp | StopRenewing | Renew
    | StartControllers | ControllerReturns(i: nat, failed: bool) | WatcherStops(denied: bool) | FinishCallback
    | RunReturns | Drained | Decide | ReadLease(ok: bool) | Release(ok: bool)
    | OtherWrites(holder: Option<nat>)

  function Init(n: nat): State {
    var controllers := seq(n, _ => NotStarted);
    State(false, false, false, Acquiring, false, NotSpawned, controllers, false, None, Electing, None, 0, false)
  }

  predicate AllReturned(cs: seq<Controller>) { forall i :: 0 <= i < |cs| ==> cs[i].Returned? }

  predicate AnyRunning(cs: seq<Controller>) { exists i :: 0 <= i < |cs| && cs[i].Running? }

  predicate AnyFailed(cs: seq<Controller>) { exists i :: 0 <= i < |cs| && cs[i] == Returned(true) }

  predicate Enabled(s: State, step: Step, me: nat) {
    match step
    case CancelParent => true
    case AcquireWrite => s.elector == Acquiring
    case SpawnCallback => s.elector == Acquired
    case GiveUp => s.elector == Acquiring && (s.parentCancelled || s.electionCancelled)
    case StopRenewing => s.elector == Leading
    case Renew => s.elector == Leading && s.holder == Some(me)
    case StartControllers => s.callback == Spawned
    case ControllerReturns(i, _) => i < |s.controllers| && s.controllers[i].Running?
    case WatcherStops(denied) => s.watching && (denied || s.runCancelled)
    case FinishCallback => s.callback == Started && AllReturned(s.controllers) && !s.watching
    case RunReturns => s.main == Electing && s.elector == Stopped
    case Drained => s.main == Draining && s.finished.Some?
    case Decide => s.main.Deciding?
    case ReadLease(_) => s.main.Reading?
    case Release(_) => s.main.Releasing?
    case OtherWrites(h) => h != Some(me)
  }

  /** What each goroutine does in one step; `me` is this replica. Cancelling the run context is never undone. */
  function Do(s: State, step: Step, me: nat): State {
    if !Enabled(s, step, me) then s
    else
      match step
      case CancelParent => s.(parentCancelled := true)
      case AcquireWrite => s.(succeeded := true, elector := Acquired, holder := Some(me), rv := s.rv + 1)
      case SpawnCallback => s.(elector := Leading, callback := Spawned)
      case GiveUp => s.(elector := Stopped)
      case StopRenewing => s.(elector := Stopped, runCancelled := true)
      case Renew => s.(rv := s.rv + 1)
      case StartControllers =>
        s.(callback := Started, controllers := seq(|s.controllers|, _ => Running), watching := true)
      case ControllerReturns(i, failed) =>
        s.(controllers := s.controllers[i := Returned(failed)], runCancelled := true, electionCancelled := true)
      case WatcherStops(denied) => s.(watching := false, runCancelled := true)
      case FinishCallback => s.(callback := Sent, finished := Some(AnyFailed(s.controllers)))
      case RunReturns => s.(main := if s.succeeded then Draining else Deciding(false))
      case Drained => s.(main := Deciding(s.finished.value))
      case Decide =>
        if s.parentCancelled || s.main.failed then
          s.(main := if s.succeeded then Reading(s.main.failed) else Exited(ControllerResult(s.main.failed)))
        else s.(main := Exited(LeadershipLost))
      case ReadLease(ok) =>
        s.(main := if ok && s.holder == Some(me) then Releasing(s.main.failed, s.rv)
                   else Exited(ControllerResult(s.main.failed)))
      case Release(ok) =>
        if ok && s.rv == s.main.rv then
          s.(main := Exited(ControllerResult(s.main.failed)), holder := None, rv := s.rv + 1, handedOver := true)
        else s.(main := Exited(ControllerResult(s.main.failed)))
      case OtherWrites(h) => s.(holder := h, rv := s.rv + 1)
  }

  function Run(n: nat, me: nat, steps: seq<Step>): State {
    if steps == [] then Init(n) else Do(Run(n, me, steps[..|steps| - 1]), steps[|steps| - 1], me)
  }

  ghost predicate PastDrain(m: MainPhase) { m.Deciding? || m.Reading? || m.Releasing? || m.Exited? }

  ghost predicate Valid(s: State, me: nat) {
    && (s.main != Electing ==> s.elector == Stopped)
    && (s.succeeded <==> s.elector == Acquired || s.callback != NotSpawned)
    && (s.elector == Acquired || s.elector == Acquiring ==> s.callback == NotSpawned)
    && (s.elector == Leading ==> s.succeeded)
    && (s.callback == NotSpawned || s.callback == Spawned ==>
          (forall i :: 0 <= i < |s.controllers| ==> s.controllers[i].NotStarted?) && !s.watching)
    && (s.callback == Started ==> forall i :: 0 <= i < |s.controllers| ==> !s.controllers[i].NotStarted?)
    && (s.callback == Sent ==> AllReturned(s.controllers) && !s.watching)
    && (s.finished.Some? <==> s.callback == Sent)
    && (s.finished.Some? ==> s.finished.value == AnyFailed(s.controllers))
    && (s.main == Draining || s.main.Reading? || s.main.Releasing? ==> s.succeeded)
    && (PastDrain(s.main) && s.succeeded ==> s.callback == Sent)
    && (s.main.Deciding? || s.main.Reading? || s.main.Releasing? ==>
          s.main.failed == (s.succeeded && AnyFailed(s.controllers)))
    && (s.main.Reading? || s.main.Releasing? ==> s.parentCancelled || s.main.failed)
    && (s.main.Releasing? ==> s.main.rv <= s.rv && (s.main.rv == s.rv ==> s.holder == Some(me)))
    && (s.main.Exited? && s.main.result.ControllerResult? ==>
          s.main.result.failed == (s.succeeded && AnyFailed(s.controllers)))
    && (s.main.Exited? && s.main.result.ControllerResult? ==> s.parentCancelled || s.main.result.failed)
    && (s.main == Exited(LeadershipLost) ==> !(s.succeeded && AnyFailed(s.controllers)))
    && (s.handedOver ==> s.main.Exited? && s.main.result != LeadershipLost && s.succeeded)
    && (s.handedOver ==> s.parentCancelled || AnyFailed(s.controllers))
  }

  predicate IsMainStep(step: Step) {
    step.RunReturns? || step.Drained? || step.Decide? || step.ReadLease? || step.Release?
  }

  lemma MainStepKeeps(s: State, step: Step, me: nat)
    requires Valid(s, me) && IsMainStep(step)
    ensures Valid(Do(s, step, me), me)
  {
  }

  lemma ControllersReturningKeeps(s: State, step: Step, me: nat)
    requires Valid(s, me) && step.ControllerReturns?
    ensures Valid(Do(s, step, me), me)
  {
    if Enabled(s, step, me) {
      assert s.controllers[step.i].Running? && s.callback == Started;
    }
  }

  lemma DoKeeps(s: State, step: Step, me: nat)
    requires Valid(s, me)
    ensures Valid(Do(s, step, me), me)
  {
    if IsMainStep(step) {
      MainStepKeeps(s, step, me);
    } else if step.ControllerReturns? {
      ControllersReturningKeeps(s, step, me);
    }
  }

  lemma {:induction false} RunValid(n: nat, me: nat, steps: seq<Step>)
    ensures Valid(Run(n, me, steps), me)
  {
    if steps != [] {
      RunValid(n, me, steps[..|steps| - 1]);
      DoKeeps(Run(n, me, steps[..|steps| - 1]), steps[|steps| - 1], me);
    }
  }

  lemma ExitIsFinal(s: State, step: Step, me: nat)
    requires s.main.Exited?
    ensures Do(s, step, me).main == s.main
  {
    if Enabled(s, step, me) {
      match step
      case RunReturns =>
      case Drained =>
      case Decide =>
      case ReadLease(_) =>
      case Release(_) =>
      case _ => assert Do(s, step, me).main == s.main;
    }
  }

  lemma ExitedRunsNothing(s: State, me: nat)
    requires Valid(s, me) && s.main.Exited?
    ensures !AnyRunning(s.controllers)
  {
  }

  /** Once Start has returned no controller runs, and none can start later, in any continuation of the run. */
  lemma {:induction false} StartReturnsAfterControllers(n: nat, me: nat, steps: seq<Step>, more: seq<Step>)
    requires Run(n, me, steps).main.Exited?
    ensures !AnyRunning(Run(n, me, steps + more).controllers)
    ensures Run(n, me, steps + more).main == Run(n, me, steps).main
    decreases |more|
  {
    if more == [] {
      assert steps + more == steps;
    } else {
      var before := more[..|more| - 1];
      assert (steps + more)[..|steps + more| - 1] == steps + before;
      StartReturnsAfterControllers(n, me, steps, before);
      ExitIsFinal(Run(n, me, steps + before), more[|more| - 1], me);
    }
    RunValid(n, me, steps + more);
    ExitedRunsNothing(Run(n, me, steps + more), me);
  }

  /**
    * A step hands the Lease over only from a state in which this replica led, every controller it started has
    * returned and the Lease still names it; and only on the way out with a shutdown or a controller failure.
    */
  lemma HandOverOnlyAfterDrain(n: nat, me: nat, steps: seq<Step>, step: Step)
    requires !Run(n, me, steps).handedOver && Do(Run(n, me, steps), step, me).handedOver
    ensures
      var s, s' := Run(n, me, steps), Do(Run(n, me, steps), step, me);
      && step == Release(true)
      && s.succeeded && AllReturned(s.controllers) && !s.watching
      && (s.parentCancelled || AnyFailed(s.controllers))
      && s.holder == Some(me) && s'.holder == None && s'.rv == s.rv + 1
      && s'.main == Exited(ControllerResult(AnyFailed(s.controllers)))
  {
    RunValid(n, me, steps);
  }

  /**
    * Leadership loss is what is left when the parent is alive and no controller failed: on that path, wherever the
    * main goroutine stands, nothing is handed over, and a Start that returns reports the loss.
    */
  lemma LossNeverHandsOver(n: nat, me: nat, steps: seq<Step>)
    requires !Run(n, me, steps).parentCancelled && !AnyFailed(Run(n, me, steps).controllers)
    ensures
      var s := Run(n, me, steps);
      && !s.handedOver && !s.main.Reading? && !s.main.Releasing?
      && (s.main.Exited? ==> s.main.result == LeadershipLost)
  {
    RunValid(n, me, steps);
  }

  /** And a loss is reported only if no controller failed, and with nothing handed over. */
  lemma LossIsReportedTruly(n: nat, me: nat, steps: seq<Step>)
    requires Run(n, me, steps).main == Exited(LeadershipLost)
    ensures !Run(n, me, steps).handedOver && !AnyFailed(Run(n, me, steps).controllers)
  {
    RunValid(n, me, steps);
  }

  // ----------------------------------------------------- what the timed machine takes from here

  /**
    * The timed machine's replica is drained exactly once Start is past its drain, and writes only for a running
    * controller.
    */
  ghost predicate Projects(s: State, me: nat, w: LeaseGate.World) {
    && (LeaseGate.Of(w, me).drained <==> PastDrain(s.main))
    && (!LeaseGate.Of(w, me).writer.Idle? ==> AnyRunning(s.controllers))
  }

  /**
    * The rules the timed machine imposes on draining are Start's own. When Start passes its drain, Drain is enabled
    * there and leads to a projection again; a hand-over finds the replica drained; acquiring, renewing and running
    * controllers find it not drained; and a drain is never undone.
    */
  lemma StartObeysDrainRules(p: LeaseGate.Params, n: nat, me: nat, steps: seq<Step>, step: Step, w: LeaseGate.World)
    requires Projects(Run(n, me, steps), me, w)
    ensures
      var s, s', drained := Run(n, me, steps), Do(Run(n, me, steps), step, me), LeaseGate.Of(w, me).drained;
      && (!PastDrain(s.main) && PastDrain(s'.main) ==>
            && LeaseGate.Enabled(p, w, LeaseGate.Drain(me))
            && Projects(s', me, LeaseGate.Do(p, w, LeaseGate.Drain(me))))
      && (step.Release? && Enabled(s, step, me) ==> drained)
      && ((step == AcquireWrite || step == Renew) && Enabled(s, step, me) ==> !drained)
      && (AnyRunning(s.controllers) ==> !drained)
      && (drained ==> PastDrain(s'.main) && !AnyRunning(s'.controllers))
  {
    var s, s' := Run(n, me, steps), Do(Run(n, me, steps), step, me);
    RunValid(n, me, steps);
    DoKeeps(s, step, me);
    if PastDrain(s.main) {
      DrainedRunsNothing(s, me);
      DrainIsFinal(s, step, me);
    }
    if PastDrain(s'.main) {
      DrainedRunsNothing(s', me);
    }
    if !PastDrain(s.main) && PastDrain(s'.main) {
      PassingTheDrain(s, step, me);
    }
  }

  lemma DrainedRunsNothing(s: State, me: nat)
    requires Valid(s, me) && PastDrain(s.main)
    ensures !AnyRunning(s.controllers) && s.elector == Stopped
  {
  }

  lemma DrainIsFinal(s: State, step: Step, me: nat)
    requires PastDrain(s.main)
    ensures PastDrain(Do(s, step, me).main)
  {
    if Enabled(s, step, me) {
      match step
      case Decide =>
      case ReadLease(_) =>
      case Release(_) =>
      case RunReturns =>
      case Drained =>
      case _ => assert Do(s, step, me).main == s.main;
    }
  }

  /** The step that passes the drain starts and stops no controller. */
  lemma PassingTheDrain(s: State, step: Step, me: nat)
    requires !PastDrain(s.main) && PastDrain(Do(s, step, me).main)
    ensures Do(s, step, me).controllers == s.controllers
  {
    match step
    case RunReturns =>
    case Drained =>
    case _ =>
  }

  /** A replica that never acquired starts no controller and touches no Lease on its way out. */
  lemma StandbyLeavesQuietly(n: nat, me: nat, steps: seq<Step>)
    requires !Run(n, me, steps).succeeded
    ensures forall i :: 0 <= i < |Run(n, me, steps).controllers| ==> Run(n, me, steps).controllers[i].NotStarted?
    ensures !Run(n, me, steps).handedOver
  {
    RunValid(n, me, steps);
  }

  // ------------------------------------------------------------------ the way out

  /** The history goes on with this replica's own steps alone, and no controller fails in them. */
  ghost predicate GoesOn(steps: seq<Step>, steps': seq<Step>) {
    steps <= steps' && forall i :: |steps| <= i < |steps'| ==> OwnStep(steps'[i])
  }

  predicate OwnStep(step: Step) {
    !step.CancelParent? && !step.OtherWrites? && (step.ControllerReturns? ==> !step.failed)
  }

  lemma Next(n: nat, me: nat, from: seq<Step>, steps: seq<Step>, step: Step) returns (steps': seq<Step>)
    requires GoesOn(from, steps) && OwnStep(step)
    ensures GoesOn(from, steps') && Run(n, me, steps') == Do(Run(n, me, steps), step, me)
  {
    steps' := steps + [step];
    assert steps'[..|steps'| - 1] == steps;
  }

  /** What decides how Start ends is unchanged. */
  ghost predicate SameFate(s: State, s': State) {
    && s'.parentCancelled == s.parentCancelled && s'.succeeded == s.succeeded && s'.holder == s.holder
    && (AnyFailed(s'.controllers) <==> AnyFailed(s.controllers))
  }

  lemma FailuresStand(cs: seq<Controller>, k: nat)
    requires k < |cs| && cs[k].Running?
    ensures AnyFailed(cs[k := Returned(false)]) <==> AnyFailed(cs)
  {
    if AnyFailed(cs) {
      var i :| 0 <= i < |cs| && cs[i] == Returned(true);
      assert cs[k := Returned(false)][i] == Returned(true);
    }
  }

  /** From the k-th on, controllers that still run return, one by one. */
  lemma {:induction false} ControllersReturn(n: nat, me: nat, from: seq<Step>, steps: seq<Step>, k: nat)
    returns (steps': seq<Step>)
    requires GoesOn(from, steps) && Run(n, me, steps).callback == Started && k <= |Run(n, me, steps).controllers|
    requires forall i :: 0 <= i < |Run(n, me, steps).controllers| ==>
                           if i < k then Run(n, me, steps).controllers[i].Returned?
                           else !Run(n, me, steps).controllers[i].NotStarted?
    ensures GoesOn(from, steps')
    ensures
      var s, s' := Run(n, me, steps), Run(n, me, steps');
      && SameFate(s, s') && AllReturned(s'.controllers) && s'.callback == Started
      && s'.main == s.main && s'.watching == s.watching
    decreases |Run(n, me, steps).controllers| - k
  {
    var s := Run(n, me, steps);
    steps' := steps;
    if k < |s.controllers| {
      if s.controllers[k].Running? {
        steps' := Next(n, me, from, steps, ControllerReturns(k, false));
        FailuresStand(s.controllers, k);
      }
      steps' := ControllersReturn(n, me, from, steps', k + 1);
    }
  }

  /** A leader that waits for its controllers gets past the drain. */
  lemma DrainEnds(n: nat, me: nat, from: seq<Step>, steps: seq<Step>) returns (steps': seq<Step>)
    requires GoesOn(from, steps) && Run(n, me, steps).main == Draining
    ensures GoesOn(from, steps') && Run(n, me, steps').main.Deciding? && SameFate(Run(n, me, steps), Run(n, me, steps'))
  {
    RunValid(n, me, steps);
    steps' := CallbackEnds(n, me, from, steps);
    RunValid(n, me, steps');
    steps' := Next(n, me, from, steps', Drained);
  }

  lemma CallbackEnds(n: nat, me: nat, from: seq<Step>, steps: seq<Step>) returns (steps': seq<Step>)
    requires GoesOn(from, steps) && Run(n, me, steps).main == Draining
    ensures GoesOn(from, steps') && Run(n, me, steps').main == Draining && Run(n, me, steps').callback == Sent
    ensures SameFate(Run(n, me, steps), Run(n, me, steps'))
  {
    RunValid(n, me, steps);
    steps' := steps;
    if Run(n, me, steps').callback == Spawned {
      steps' := Next(n, me, from, steps', StartControllers);
    }
    if Run(n, me, steps').callback == Started {
      steps' := StartedEnds(n, me, from, steps');
    }
  }

  lemma StartedEnds(n: nat, me: nat, from: seq<Step>, steps: seq<Step>) returns (steps': seq<Step>)
    requires GoesOn(from, steps) && Run(n, me, steps).main == Draining && Run(n, me, steps).callback == Started
    ensures GoesOn(from, steps') && Run(n, me, steps').main == Draining && Run(n, me, steps').callback == Sent
    ensures SameFate(Run(n, me, steps), Run(n, me, steps'))
  {
    RunValid(n, me, steps);
    steps' := ControllersReturn(n, me, from, steps, 0);
    if Run(n, me, steps').watching {
      steps' := Next(n, me, from, steps', WatcherStops(true));
    }
    steps' := Next(n, me, from, steps', FinishCallback);
  }

  /** An elector that has acquired, or has stopped, lets Run return. */
  lemma ElectionEnds(n: nat, me: nat, from: seq<Step>, steps: seq<Step>) returns (steps': seq<Step>)
    requires GoesOn(from, steps) && Run(n, me, steps).main == Electing && Run(n, me, steps).elector != Acquiring
    ensures GoesOn(from, steps') && SameFate(Run(n, me, steps), Run(n, me, steps'))
    ensures Run(n, me, steps').main == if Run(n, me, steps).succeeded then Draining else Deciding(false)
  {
    RunValid(n, me, steps);
    steps' := steps;
    if Run(n, me, steps').elector == Acquired {
      steps' := Next(n, me, from, steps', SpawnCallback);
    }
    if Run(n, me, steps').elector == Leading {
      steps' := Next(n, me, from, steps', StopRenewing);
    }
    steps' := Next(n, me, from, steps', RunReturns);
  }

  /** A deliberate exit: shutdown, or a controller failure. */
  ghost predicate Deliberate(s: State) { s.parentCancelled || AnyFailed(s.controllers) }

  /** How Start ends for a replica in this state, left to itself. */
  ghost predicate EndsWell(s: State, s': State, me: nat) {
    && s'.main.Exited?
    && s'.main.result == (if Deliberate(s) then ControllerResult(AnyFailed(s.controllers)) else LeadershipLost)
    && (s'.handedOver <==> Deliberate(s) && s.succeeded && s.holder == Some(me))
    && s'.holder == (if s'.handedOver then None else s.holder)
  }

  lemma ReleaseEnds(n: nat, me: nat, from: seq<Step>, steps: seq<Step>) returns (steps': seq<Step>)
    requires GoesOn(from, steps) && Run(n, me, steps).main.Reading?
    ensures GoesOn(from, steps') && EndsWell(Run(n, me, steps), Run(n, me, steps'), me)
  {
    RunValid(n, me, steps);
    steps' := Next(n, me, from, steps, ReadLease(true));
    if Run(n, me, steps').main.Releasing? {
      steps' := Next(n, me, from, steps', Release(true));
    }
  }

  lemma DecisionEnds(n: nat, me: nat, from: seq<Step>, steps: seq<Step>) returns (steps': seq<Step>)
    requires GoesOn(from, steps) && Run(n, me, steps).main.Deciding?
    ensures GoesOn(from, steps') && EndsWell(Run(n, me, steps), Run(n, me, steps'), me)
  {
    RunValid(n, me, steps);
    var s := Run(n, me, steps);
    NeverLedNeverFailed(s, me);
    steps' := Next(n, me, from, steps, Decide);
    var decided := Run(n, me, steps');
    assert decided == s.(main := decided.main);
    if decided.main.Reading? {
      steps' := ReleaseEnds(n, me, from, steps');
    }
  }

  lemma NeverLedNeverFailed(s: State, me: nat)
    requires Valid(s, me) && !s.main.Exited?
    ensures !s.succeeded ==> !AnyFailed(s.controllers)
    ensures !s.handedOver
  {
  }

  lemma LedEnds(n: nat, me: nat, from: seq<Step>, steps: seq<Step>) returns (steps': seq<Step>)
    requires GoesOn(from, steps) && Run(n, me, steps).elector != Acquiring
    requires !Run(n, me, steps).main.Releasing? && !Run(n, me, steps).main.Exited?
    ensures GoesOn(from, steps') && EndsWell(Run(n, me, steps), Run(n, me, steps'), me)
  {
    steps' := steps;
    if Run(n, me, steps').main == Electing {
      steps' := ElectionEnds(n, me, from, steps');
    }
    if Run(n, me, steps').main == Draining {
      steps' := DrainEnds(n, me, from, steps');
    }
    if Run(n, me, steps').main.Deciding? {
      steps' := DecisionEnds(n, me, from, steps');
    } else {
      steps' := ReleaseEnds(n, me, from, steps');
    }
  }

  /**
    * From every reachable state up to the release, the replica's own steps bring Start to its end: a deliberate exit
    * of a leader the Lease still names hands it over, a standby leaves it alone, and a leader whose parent is alive
    * and whose controllers did not fail reports the loss.
    */
  lemma StartCanFinish(n: nat, me: nat, steps: seq<Step>) returns (steps': seq<Step>)
    requires !Run(n, me, steps).main.Releasing? && !Run(n, me, steps).main.Exited?
    ensures GoesOn(steps, steps') && Run(n, me, steps').main.Exited?
    ensures Run(n, me, steps).elector != Acquiring || Run(n, me, steps).parentCancelled ==>
              EndsWell(Run(n, me, steps), Run(n, me, steps'), me)
    ensures Run(n, me, steps).elector == Acquiring && !Run(n, me, steps).parentCancelled ==>
              Run(n, me, steps').main.result == LeadershipLost && !Run(n, me, steps').handedOver
  {
    RunValid(n, me, steps);
    var s := Run(n, me, steps);
    steps' := steps;
    if s.elector == Acquiring {
      steps' := Next(n, me, steps, steps', if s.parentCancelled then GiveUp else AcquireWrite);
    }
    steps' := LedEnds(n, me, steps, steps');
  }
}
