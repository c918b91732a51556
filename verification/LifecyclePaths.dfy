/**
 * What each command does on its way, and what it may answer: over every run of the lifecycle, the steps a command
 * itself took spell one of a few paths, and its outcome is the one that path earns.
 */
module LifecyclePaths {
  import opened Wrappers
  import opened Lifecycle

  /** A step that command `i` takes itself. */
  predicate IsOf(step: Step, i: nat) {
    !step.Arrive? && !step.Born? && !step.Die? && step.i == i
  }

  /** The steps command `i` has taken. */
  function Own(steps: seq<Step>, i: nat): seq<Step> {
    if steps == [] then []
    else Own(steps[..|steps| - 1], i) + if IsOf(steps[|steps| - 1], i) then [steps[|steps| - 1]] else []
  }

  // ----- The paths -----

  predicate IsLocked(own: seq<Step>, i: nat) {
    own == [Acquire(i)]
  }

  /** A plain `up` that has asked for the health. */
  predicate IsChecked(own: seq<Step>, i: nat) {
    |own| == 2 && IsLocked(own[..1], i) && own[1].CheckHealth? && own[1].i == i
  }

  /** A command that has stopped what it found: nothing to stop, gone within the grace period, or killed. */
  predicate IsStopped(own: seq<Step>, i: nat) {
    && 2 <= |own| <= 3 && IsLocked(own[..1], i) && own[1] == Stop(i)
    && (|own| == 3 ==> own[2] == SeeGone(i) || own[2] == Kill(i))
  }

  /** The path's last step clears the state, and what came before it stopped or found something. */
  predicate IsCleared(own: seq<Step>, i: nat, command: Command) {
    && own != [] && own[|own| - 1].Clear? && own[|own| - 1].i == i
    && (if command == Up then IsChecked(own[..|own| - 1], i) else IsStopped(own[..|own| - 1], i))
  }

  predicate MaySpawn(own: seq<Step>, i: nat, command: Command, outcome: Outcome) {
    match outcome
    case Started => command == Up && IsChecked(own, i)
    case Recovered => command == Up && IsCleared(own, i, command)
    case Recreated => command == Recreate && IsCleared(own, i, command)
    case _ => false
  }

  predicate HasSpawned(own: seq<Step>, i: nat, command: Command, outcome: Outcome) {
    && own != [] && own[|own| - 1].Spawn? && own[|own| - 1].i == i
    && MaySpawn(own[..|own| - 1], i, command, outcome)
  }

  /** Somewhere on the way, where a command can still die. */
  predicate IsUnderWay(own: seq<Step>, i: nat, command: Command) {
    || own == [] || IsLocked(own, i)
    || (command == Up &&
          (IsChecked(own, i) || IsCleared(own, i, command)
           || HasSpawned(own, i, command, Started) || HasSpawned(own, i, command, Recovered)))
    || (command != Up && IsStopped(own, i))
    || (command == Recreate && (IsCleared(own, i, command) || HasSpawned(own, i, command, Recreated)))
  }

  predicate HasAnswered(own: seq<Step>, i: nat, command: Command, outcome: Outcome) {
    match outcome
    case AlreadyUp => command == Up && IsChecked(own, i) && own[1].answers
    case Stopped => (command == Down || command == Rm) && IsCleared(own, i, command)
    case Failed =>
      && own != [] && (own[|own| - 1] == Abort(i) || own[|own| - 1] == Respond(i, false))
      && IsUnderWay(own[..|own| - 1], i, command)
    case _ =>
      own != [] && own[|own| - 1] == Respond(i, true) && HasSpawned(own[..|own| - 1], i, command, outcome)
  }

  /** The steps a command has taken are those that lead to where it is. */
  predicate IsPath(own: seq<Step>, i: nat, a: Actor) {
    match a.pc
    case Waiting => own == []
    case Checking => a.command == Up && IsLocked(own, i)
    case Stopping => a.command != Up && IsLocked(own, i)
    case InGrace(_) => a.command != Up && |own| == 2 && IsStopped(own, i)
    case Clearing(outcome) =>
      if a.command == Up then outcome == Recovered && IsChecked(own, i)
      else outcome == (if a.command == Recreate then Recreated else Stopped) && IsStopped(own, i)
    case Spawning(outcome) => MaySpawn(own, i, a.command, outcome)
    case Awaiting(outcome) => HasSpawned(own, i, a.command, outcome)
    case Done(outcome) => HasAnswered(own, i, a.command, outcome)
  }

  lemma StartKeepsPath(h: Host, step: Step, i: nat, own: seq<Step>)
    requires CanStep(h, step) && IsOf(step, i) && At(h, i) && IsPath(own, i, h.actors[i])
    requires step.Acquire? || step.CheckHealth? || step.Stop? || step.SeeGone? || step.Kill?
    ensures IsPath(own + [step], i, Next(h, step).actors[i])
  {
    var more := own + [step];
    assert more[..|own|] == own;
    assert |own| >= 1 ==> more[..1] == own[..1];
  }

  lemma LastOfMore(own: seq<Step>, step: Step)
    ensures var more := own + [step];
            more != [] && more[..|more| - 1] == own && more[|more| - 1] == step
  {
  }

  lemma ClearedPath(own: seq<Step>, step: Step, i: nat, command: Command)
    requires step.Clear? && step.i == i && (if command == Up then IsChecked(own, i) else IsStopped(own, i))
    ensures IsCleared(own + [step], i, command)
  {
    LastOfMore(own, step);
  }

  lemma SpawnedPath(own: seq<Step>, step: Step, i: nat, command: Command, outcome: Outcome)
    requires step.Spawn? && step.i == i && MaySpawn(own, i, command, outcome)
    ensures HasSpawned(own + [step], i, command, outcome)
  {
    LastOfMore(own, step);
  }

  lemma AnsweredPath(own: seq<Step>, i: nat, command: Command, outcome: Outcome)
    requires HasSpawned(own, i, command, outcome)
    ensures HasAnswered(own + [Respond(i, true)], i, command, outcome)
  {
    LastOfMore(own, Respond(i, true));
  }

  lemma FailedPath(own: seq<Step>, step: Step, i: nat, command: Command)
    requires (step == Abort(i) || step == Respond(i, false)) && IsUnderWay(own, i, command)
    ensures HasAnswered(own + [step], i, command, Failed)
  {
    LastOfMore(own, step);
  }

  /** Wherever it is, a command that is not done is under way. */
  lemma OpenPath(own: seq<Step>, i: nat, a: Actor)
    requires IsPath(own, i, a) && !a.pc.Done?
    ensures IsUnderWay(own, i, a.command)
  {
  }

  /** Where the last steps of a command take it. */
  function LastPc(pc: Pc, step: Step): Pc {
    match (step, pc)
    case (Clear(_, _), Clearing(outcome)) => if outcome == Stopped then Done(Stopped) else Spawning(outcome)
    case (Spawn(_, _, _), Spawning(outcome)) => Awaiting(outcome)
    case (Respond(_, inTime), Awaiting(outcome)) => Done(if inTime then outcome else Failed)
    case (_, _) => Done(Failed)
  }

  lemma LastStepsMove(h: Host, step: Step, i: nat)
    requires CanStep(h, step) && IsOf(step, i) && (step.Clear? || step.Spawn? || step.Respond? || step.Abort?)
    ensures Next(h, step).actors[i] == h.actors[i].(pc := LastPc(h.actors[i].pc, step))
  {
  }

  lemma AbortKeepsPath(a: Actor, i: nat, own: seq<Step>)
    requires IsPath(own, i, a) && !a.pc.Done?
    ensures IsPath(own + [Abort(i)], i, a.(pc := LastPc(a.pc, Abort(i))))
  {
    OpenPath(own, i, a);
    FailedPath(own, Abort(i), i, a.command);
  }

  lemma ClearKeepsPath(a: Actor, step: Step, i: nat, own: seq<Step>)
    requires IsPath(own, i, a) && a.pc.Clearing? && step.Clear? && step.i == i
    ensures IsPath(own + [step], i, a.(pc := LastPc(a.pc, step)))
  {
    ClearedPath(own, step, i, a.command);
  }

  lemma SpawnKeepsPath(a: Actor, step: Step, i: nat, own: seq<Step>)
    requires IsPath(own, i, a) && a.pc.Spawning? && step.Spawn? && step.i == i
    ensures IsPath(own + [step], i, a.(pc := LastPc(a.pc, step)))
  {
    SpawnedPath(own, step, i, a.command, a.pc.outcome);
  }

  lemma RespondKeepsPath(a: Actor, step: Step, i: nat, own: seq<Step>)
    requires IsPath(own, i, a) && a.pc.Awaiting? && step.Respond? && step.i == i
    ensures IsPath(own + [step], i, a.(pc := LastPc(a.pc, step)))
  {
    if step.inTime {
      AnsweredPath(own, i, a.command, a.pc.outcome);
    } else {
      OpenPath(own, i, a);
      FailedPath(own, step, i, a.command);
    }
  }

  lemma LastStepsKeepPath(h: Host, step: Step, i: nat, own: seq<Step>)
    requires CanStep(h, step) && IsOf(step, i) && At(h, i) && IsPath(own, i, h.actors[i])
    requires step.Clear? || step.Spawn? || step.Respond? || step.Abort?
    ensures IsPath(own + [step], i, Next(h, step).actors[i])
  {
    LastStepsMove(h, step, i);
    if step.Abort? {
      AbortKeepsPath(h.actors[i], i, own);
    } else if step.Clear? {
      ClearKeepsPath(h.actors[i], step, i, own);
    } else if step.Spawn? {
      SpawnKeepsPath(h.actors[i], step, i, own);
    } else {
      RespondKeepsPath(h.actors[i], step, i, own);
    }
  }

  lemma OtherStepKeepsActor(h: Host, step: Step, i: nat)
    requires CanStep(h, step) && !IsOf(step, i) && At(h, i)
    ensures At(Next(h, step), i) && Next(h, step).actors[i] == h.actors[i]
  {
  }

  lemma StepKeepsPath(h: Host, step: Step, i: nat, own: seq<Step>)
    requires CanStep(h, step) && At(h, i) && IsPath(own, i, h.actors[i])
    ensures At(Next(h, step), i)
    ensures IsPath(if IsOf(step, i) then own + [step] else own, i, Next(h, step).actors[i])
  {
    if !IsOf(step, i) {
      OtherStepKeepsActor(h, step, i);
    } else if step.Clear? || step.Spawn? || step.Respond? || step.Abort? {
      LastStepsKeepPath(h, step, i, own);
    } else {
      StartKeepsPath(h, step, i, own);
    }
  }

  lemma ArrivalStartsPath(h: Host, step: Step, i: nat)
    requires CanStep(h, step) && !At(h, i) && At(Next(h, step), i)
    ensures !IsOf(step, i) && IsPath([], i, Next(h, step).actors[i])
  {
  }

  lemma NotThere(h: Host, step: Step, i: nat)
    requires CanStep(h, step) && !At(Next(h, step), i)
    ensures !At(h, i) && !IsOf(step, i)
  {
  }

  lemma {:induction false} NothingBeforeArrival(steps: seq<Step>, i: nat)
    requires Run(FRESH, steps).Some? && !At(Run(FRESH, steps).value, i)
    ensures Own(steps, i) == []
  {
    if steps != [] {
      NotThere(Run(FRESH, steps[..|steps| - 1]).value, steps[|steps| - 1], i);
      NothingBeforeArrival(steps[..|steps| - 1], i);
    }
  }

  /** Over every run, whatever the other commands do and whichever of them die, each command keeps to its path. */
  lemma {:induction false} EveryCommandKeepsToItsPath(steps: seq<Step>, i: nat)
    requires Run(FRESH, steps).Some? && At(Run(FRESH, steps).value, i)
    ensures IsPath(Own(steps, i), i, Run(FRESH, steps).value.actors[i])
  {
    var init, last := steps[..|steps| - 1], steps[|steps| - 1];
    var h := Run(FRESH, init).value;
    if At(h, i) {
      EveryCommandKeepsToItsPath(init, i);
      StepKeepsPath(h, last, i, Own(init, i));
      assert Own(init, i) + [] == Own(init, i);
    } else {
      NothingBeforeArrival(init, i);
      ArrivalStartsPath(h, last, i);
    }
  }

  // ----- What that comes to -----

  lemma {:induction false} OwnSteps(steps: seq<Step>, i: nat)
    ensures forall step :: step in Own(steps, i) <==> step in steps && IsOf(step, i)
  {
    if steps != [] {
      var init, last := steps[..|steps| - 1], steps[|steps| - 1];
      OwnSteps(init, i);
      assert steps == init + [last];
    }
  }

  /** The outcomes a command can have. */
  predicate IsItsOutcome(command: Command, outcome: Outcome) {
    match command
    case Up => outcome == Started || outcome == AlreadyUp || outcome == Recovered || outcome == Failed
    case Recreate => outcome == Recreated || outcome == Failed
    case Down => outcome == Stopped || outcome == Failed
    case Rm => outcome == Stopped || outcome == Failed
  }

  predicate Starts(outcome: Outcome) {
    outcome == Started || outcome == Recovered || outcome == Recreated
  }

  lemma OutcomeOfPath(own: seq<Step>, i: nat, a: Actor)
    requires IsPath(own, i, a)
    ensures a.pc.Done? ==> IsItsOutcome(a.command, a.pc.outcome)
    ensures a.command == Down || a.command == Rm ==> !a.pc.Spawning? && !a.pc.Awaiting?
    ensures a.pc.Done? && Starts(a.pc.outcome) ==>
              |own| >= 2 && own[|own| - 2].Spawn? && own[|own| - 2].i == i && own[|own| - 1] == Respond(i, true)
    ensures a.pc.Done? && a.pc.outcome == Stopped ==> Stop(i) in own && own[|own| - 1].Clear? && own[|own| - 1].i == i
  {
    if a.pc.Done? && a.pc.outcome == Stopped {
      assert own[..|own| - 1][1] == own[1];
    }
  }

  /**
   * Over every run: a command ends in one of its own outcomes or fails, `down` and `rm` never come near starting a
   * keeper, an outcome that says a keeper was started comes only after the command's own spawn was answered, and
   * `Stopped` only after its own stop and clear.
   */
  lemma OutcomesAreEarned(steps: seq<Step>, i: nat)
    requires Run(FRESH, steps).Some? && At(Run(FRESH, steps).value, i)
    ensures var a := Run(FRESH, steps).value.actors[i];
            && (a.pc.Done? ==> IsItsOutcome(a.command, a.pc.outcome))
            && (a.command == Down || a.command == Rm ==> !a.pc.Spawning? && !a.pc.Awaiting?)
            && (a.pc.Done? && Starts(a.pc.outcome) ==>
                  Respond(i, true) in steps && exists pid: nat, start: nat :: Spawn(i, pid, start) in steps)
            && (a.pc.Done? && a.pc.outcome == Stopped ==>
                  Stop(i) in steps && exists removed :: Clear(i, removed) in steps)
  {
    EveryCommandKeepsToItsPath(steps, i);
    var own, a := Own(steps, i), Run(FRESH, steps).value.actors[i];
    OutcomeOfPath(own, i, a);
    OwnSteps(steps, i);
    if a.pc.Done? && Starts(a.pc.outcome) {
      var spawn := own[|own| - 2];
      assert spawn == Spawn(i, spawn.pid, spawn.start) && spawn in own && own[|own| - 1] in own;
    } else if a.pc.Done? && a.pc.outcome == Stopped {
      var clear := own[|own| - 1];
      assert clear == Clear(i, clear.removed) && clear in own;
    }
  }

  predicate NoSignals(own: seq<Step>) {
    forall step <- own :: !step.Stop? && !step.SeeGone? && !step.Kill?
  }

  lemma NoSignalsButLast(own: seq<Step>)
    requires own != [] && NoSignals(own[..|own| - 1])
    requires var last := own[|own| - 1]; !last.Stop? && !last.SeeGone? && !last.Kill?
    ensures NoSignals(own)
  {
    assert own == own[..|own| - 1] + [own[|own| - 1]];
  }

  lemma UnderWayWithoutSignals(own: seq<Step>, i: nat)
    requires IsUnderWay(own, i, Up)
    ensures NoSignals(own)
    decreases |own|
  {
    if |own| >= 2 {
      assert own[..|own| - 1] == [] || IsUnderWay(own[..|own| - 1], i, Up);
      UnderWayWithoutSignals(own[..|own| - 1], i);
      NoSignalsButLast(own);
    }
  }

  lemma PathWithoutSignals(own: seq<Step>, i: nat, a: Actor)
    requires IsPath(own, i, a) && a.command == Up
    ensures NoSignals(own)
  {
    if IsUnderWay(own, i, Up) {
      UnderWayWithoutSignals(own, i);
    } else {
      UnderWayWithoutSignals(own[..|own| - 1], i);
      NoSignalsButLast(own);
    }
  }

  /** A plain `up` never signals anything. */
  lemma UpSignalsNothing(steps: seq<Step>, i: nat)
    requires Run(FRESH, steps).Some? && At(Run(FRESH, steps).value, i)
    requires Run(FRESH, steps).value.actors[i].command == Up
    ensures Stop(i) !in steps && SeeGone(i) !in steps && Kill(i) !in steps
  {
    EveryCommandKeepsToItsPath(steps, i);
    PathWithoutSignals(Own(steps, i), i, Run(FRESH, steps).value.actors[i]);
    OwnSteps(steps, i);
  }

  // ----- What an `up` saw -----

  /** At some step of this run `up` number `i` asked for the health, and its outcome is what it then saw. */
  ghost predicate SawHealth(steps: seq<Step>, i: nat, outcome: Outcome) {
    exists k: nat :: k < |steps| && SawAt(steps, i, outcome, k)
  }

  ghost predicate SawAt(steps: seq<Step>, i: nat, outcome: Outcome, k: nat)
    requires k < |steps|
  {
    && steps[k].CheckHealth? && steps[k].i == i && Run(FRESH, steps[..k]).Some?
    && var h := Run(FRESH, steps[..k]).value;
       match outcome
       case Started => h.pidfile == None
       case AlreadyUp => RecordedIsAlive(h) && steps[k].answers
       case Recovered => h.pidfile.Some? && !(RecordedIsAlive(h) && steps[k].answers)
       case _ => false
  }

  /** From the check on, where an `up` is tells what it saw. */
  ghost predicate SawWhatItSays(steps: seq<Step>, i: nat, a: Actor) {
    a.command == Up ==>
      (HasOutcome(a.pc) ==> a.pc == Done(Failed) || SawHealth(steps, i, a.pc.outcome))
  }

  lemma SawStays(steps: seq<Step>, step: Step, i: nat, outcome: Outcome)
    requires SawHealth(steps, i, outcome)
    ensures SawHealth(steps + [step], i, outcome)
  {
    var k: nat :| k < |steps| && SawAt(steps, i, outcome, k);
    assert (steps + [step])[..k] == steps[..k];
    assert SawAt(steps + [step], i, outcome, k);
  }

  lemma SeesNow(steps: seq<Step>, h: Host, i: nat, answers: bool)
    requires Run(FRESH, steps) == Some(h) && CanStep(h, CheckHealth(i, answers))
    ensures SawHealth(steps + [CheckHealth(i, answers)], i,
                      if h.pidfile == None then Started
                      else if RecordedIsAlive(h) && answers then AlreadyUp else Recovered)
  {
    var all := steps + [CheckHealth(i, answers)];
    assert all[..|steps|] == steps;
    assert SawAt(all, i, if h.pidfile == None then Started
                         else if RecordedIsAlive(h) && answers then AlreadyUp else Recovered, |steps|);
  }

  lemma StepSays(steps: seq<Step>, h: Host, step: Step, i: nat, own: seq<Step>)
    requires Run(FRESH, steps) == Some(h) && CanStep(h, step) && At(h, i) && IsPath(own, i, h.actors[i])
    requires SawWhatItSays(steps, i, h.actors[i])
    ensures SawWhatItSays(steps + [step], i, Next(h, step).actors[i])
  {
    if step.CheckHealth? && step.i == i {
      SeesNow(steps, h, i, step.answers);
      NowSays(h, step, i, own);
    } else if h.actors[i].command == Up {
      UnchangedOutcome(h, step, i, own);
      var pc := h.actors[i].pc;
      if HasOutcome(pc) && pc.outcome != Failed {
        SawStays(steps, step, i, pc.outcome);
      }
    }
  }

  predicate HasOutcome(pc: Pc) {
    pc.Clearing? || pc.Spawning? || pc.Awaiting? || pc.Done?
  }

  lemma NowSays(h: Host, step: Step, i: nat, own: seq<Step>)
    requires CanStep(h, step) && At(h, i) && IsPath(own, i, h.actors[i]) && step.CheckHealth? && step.i == i
    ensures var pc := Next(h, step).actors[i].pc;
            HasOutcome(pc)
            && pc.outcome == if h.pidfile == None then Started
                             else if RecordedIsAlive(h) && step.answers then AlreadyUp else Recovered
  {
  }

  /** After the check an `up` keeps the outcome it goes for, or fails. */
  lemma UnchangedOutcome(h: Host, step: Step, i: nat, own: seq<Step>)
    requires CanStep(h, step) && At(h, i) && h.actors[i].command == Up && IsPath(own, i, h.actors[i])
    requires !(step.CheckHealth? && step.i == i)
    ensures var before, after := h.actors[i].pc, Next(h, step).actors[i].pc;
            || after == before || after == Done(Failed) || after.Checking?
            || ((before.Clearing? || before.Spawning? || before.Awaiting?)
                && (after.Spawning? || after.Awaiting? || after.Done?) && after.outcome == before.outcome)
  {
    if !IsOf(step, i) {
      OtherStepKeepsActor(h, step, i);
    }
  }

  /**
   * Over every run: an `up` that answers `Started` found no pidfile, one that answers `AlreadyUp` found the recorded
   * keeper alive and answering, and one that answers `Recovered` found a record without such a keeper.
   */
  lemma {:induction false} OutcomeIsWhatWasSeen(steps: seq<Step>, i: nat)
    requires Run(FRESH, steps).Some? && At(Run(FRESH, steps).value, i)
    ensures SawWhatItSays(steps, i, Run(FRESH, steps).value.actors[i])
  {
    var init, last := steps[..|steps| - 1], steps[|steps| - 1];
    var h := Run(FRESH, init).value;
    assert steps == init + [last];
    if At(h, i) {
      OutcomeIsWhatWasSeen(init, i);
      EveryCommandKeepsToItsPath(init, i);
      StepSays(init, h, last, i, Own(init, i));
    } else {
      ArrivalStartsPath(h, last, i);
    }
  }

  // ----- Stopped means stopped -----

  /**
   * When a `down` or `rm` clears the state, in a run without a refused check of a standing keeper, it is done, and it
   * leaves no keeper standing, no pidfile and no lock.
   */
  lemma StoppedLeavesNothing(steps: seq<Step>, h: Host, i: nat, pid: nat)
    requires Run(FRESH, steps) == Some(h) && CanStep(h, Clear(i, true))
    requires h.actors[i].command == Down || h.actors[i].command == Rm
    requires Never(FRESH, (g, step) => IsRefused(g, step), steps)
    ensures var after := Next(h, Clear(i, true));
            && Run(FRESH, steps + [Clear(i, true)]) == Some(after)
            && after.actors[i].pc == Done(Stopped) && after.lock == None && after.pidfile == None
            && !IsStanding(after, pid)
  {
    RunOneMore(FRESH, steps, h, Clear(i, true));
    EveryRunKeepsHost(steps);
    EveryCommandKeepsToItsPath(steps, i);
    ReplacedKeeperIsStopped(steps, i, pid);
  }

  /** No keeper is sent SIGKILL that was not sent SIGTERM first. */
  lemma TermComesFirst(steps: seq<Step>, pid: nat)
    requires Run(FRESH, steps).Some? && pid in Run(FRESH, steps).value.procs
    ensures var p := Run(FRESH, steps).value.procs[pid]; p.killed ==> p.termed
  {
    EveryRunTerms(steps);
  }

  ghost predicate TermKept(h: Host) {
    && (forall pid <- h.procs :: h.procs[pid].killed ==> h.procs[pid].termed)
    && (forall i: nat :: i < |h.actors| && h.actors[i].pc.InGrace? ==>
          var r := h.actors[i].pc.record; IsSame(h, r) ==> h.procs[r.pid].termed)
  }

  lemma SignalKeepsTerm(h: Host, step: Step)
    requires HostKept(h) && TermKept(h) && CanStep(h, step) && (step.Stop? || step.Kill?)
    ensures TermKept(Next(h, step))
  {
  }

  lemma BirthKeepsTerm(h: Host, step: Step)
    requires HostKept(h) && TermKept(h) && CanStep(h, step) && (step.Spawn? || step.Born?)
    ensures TermKept(Next(h, step))
  {
  }

  lemma OtherStepKeepsTerm(h: Host, step: Step)
    requires TermKept(h) && CanStep(h, step) && !step.Stop? && !step.Kill? && !step.Spawn? && !step.Born?
    ensures TermKept(Next(h, step))
  {
    assert forall pid <- Next(h, step).procs :: pid in h.procs && Next(h, step).procs[pid] == h.procs[pid];
  }

  lemma StepKeepsTerm(h: Host, step: Step)
    requires HostKept(h) && TermKept(h) && CanStep(h, step)
    ensures TermKept(Next(h, step))
  {
    if step.Stop? || step.Kill? {
      SignalKeepsTerm(h, step);
    } else if step.Spawn? || step.Born? {
      BirthKeepsTerm(h, step);
    } else {
      OtherStepKeepsTerm(h, step);
    }
  }

  lemma {:induction false} EveryRunTerms(steps: seq<Step>)
    requires Run(FRESH, steps).Some?
    ensures TermKept(Run(FRESH, steps).value)
  {
    if steps != [] {
      EveryRunTerms(steps[..|steps| - 1]);
      EveryRunKeepsHost(steps[..|steps| - 1]);
      StepKeepsTerm(Run(FRESH, steps[..|steps| - 1]).value, steps[|steps| - 1]);
    }
  }
}
