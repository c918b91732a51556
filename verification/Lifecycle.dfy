/**
 * Bringing a sandbox up and down: any number of commands at once, each of them free to die at any step, over one
 * file lock, one pidfile, and a process table in which pids are used again.
 */
module Lifecycle {
  import opened Wrappers

  datatype Command = Up | Recreate | Down | Rm

  datatype Outcome = Started | AlreadyUp | Recovered | Recreated | Stopped | Failed

  /** Where a command is; from `Checking` or `Stopping` to `Awaiting` it holds the lock. */
  datatype Pc =
    | Waiting
    | Checking
    | Stopping
    | InGrace(record: Record)
    | Clearing(outcome: Outcome)
    | Spawning(outcome: Outcome)
    | Awaiting(outcome: Outcome)
    | Done(outcome: Outcome)

  datatype Actor = Actor(command: Command, pc: Pc)

  /** A process: when it started, whether it is one of the sandbox's keepers, and which signals it was sent. */
  datatype Proc = Proc(start: nat, isKeeper: bool, termed: bool, killed: bool)

  /** What a pidfile holds: a pid, and the start time the process had when it was written. */
  datatype Record = Record(pid: nat, start: nat)

  /** `lastStart` remembers the start time each pid was last used with. */
  datatype Host = Host(
    actors: seq<Actor>, lock: Option<nat>, pidfile: Option<Record>, procs: map<nat, Proc>, lastStart: map<nat, nat>)

  datatype Step =
    | Arrive(command: Command)
    | Acquire(i: nat)
    | CheckHealth(i: nat, answers: bool)
    | Stop(i: nat)
    | SeeGone(i: nat)
    | Kill(i: nat)
    | Clear(i: nat, removed: bool)
    | Spawn(i: nat, pid: nat, start: nat)
    | Respond(i: nat, inTime: bool)
    | Abort(i: nat)
    | Born(pid: nat, start: nat)
    | Die(pid: nat)

  const FRESH := Host([], None, None, map[], map[])

  /** The process now running under a pid is the one a record was written for. */
  predicate IsSame(h: Host, r: Record) {
    r.pid in h.procs && h.procs[r.pid].start == r.start
  }

  predicate RecordedIsAlive(h: Host) {
    h.pidfile.Some? && IsSame(h, h.pidfile.value)
  }

  predicate HoldsLock(pc: Pc) {
    !pc.Waiting? && !pc.Done?
  }

  /** A pid can be taken when it is free, and only with a later start time than before. */
  predicate CanStart(h: Host, pid: nat, start: nat) {
    pid !in h.procs && start > 0 && (pid in h.lastStart ==> start > h.lastStart[pid])
  }

  predicate At(h: Host, i: nat) {
    i < |h.actors|
  }

  predicate CanStep(h: Host, step: Step) {
    match step
    case Arrive(_) => true
    case Acquire(i) => At(h, i) && h.actors[i].pc == Waiting && h.lock == None
    case CheckHealth(i, _) => At(h, i) && h.actors[i].pc == Checking
    case Stop(i) => At(h, i) && h.actors[i].pc == Stopping
    case SeeGone(i) => At(h, i) && h.actors[i].pc.InGrace? && !IsSame(h, h.actors[i].pc.record)
    case Kill(i) => At(h, i) && h.actors[i].pc.InGrace?
    case Clear(i, _) => At(h, i) && h.actors[i].pc.Clearing?
    case Spawn(i, pid, start) => At(h, i) && h.actors[i].pc.Spawning? && CanStart(h, pid, start)
    case Respond(i, _) => At(h, i) && h.actors[i].pc.Awaiting?
    case Abort(i) => At(h, i) && !h.actors[i].pc.Done?
    case Born(pid, start) => CanStart(h, pid, start)
    case Die(pid) => pid in h.procs
  }

  function Goto(h: Host, i: nat, pc: Pc): Host
    requires At(h, i)
  {
    h.(actors := h.actors[i := h.actors[i].(pc := pc)])
  }

  /** A command that ends, however it ends, lets go of the lock it holds. */
  function Finish(h: Host, i: nat, outcome: Outcome): Host
    requires At(h, i)
  {
    Goto(h, i, Done(outcome)).(lock := if h.lock == Some(i) then None else h.lock)
  }

  /** What a command goes on to once the keeper it found is stopped. */
  function AfterStop(command: Command): Pc {
    Clearing(if command == Recreate then Recreated else Stopped)
  }

  function Next(h: Host, step: Step): Host
    requires CanStep(h, step)
  {
    match step
    case Arrive(command) => h.(actors := h.actors + [Actor(command, Waiting)])
    case Acquire(i) =>
      Goto(h, i, if h.actors[i].command == Up then Checking else Stopping).(lock := Some(i))
    case CheckHealth(i, answers) =>
      if h.pidfile == None then Goto(h, i, Spawning(Started))
      else if IsSame(h, h.pidfile.value) && answers then Finish(h, i, AlreadyUp)
      else Goto(h, i, Clearing(Recovered))
    case Stop(i) =>
      if RecordedIsAlive(h) then
        var pid := h.pidfile.value.pid;
        Goto(h, i, InGrace(h.pidfile.value)).(procs := h.procs[pid := h.procs[pid].(termed := true)])
      else Goto(h, i, AfterStop(h.actors[i].command))
    case SeeGone(i) => Goto(h, i, AfterStop(h.actors[i].command))
    case Kill(i) =>
      var record := h.actors[i].pc.record;
      var after := Goto(h, i, AfterStop(h.actors[i].command));
      if IsSame(h, record)
      then after.(procs := h.procs[record.pid := h.procs[record.pid].(killed := true)]) else after
    case Clear(i, removed) =>
      var outcome := h.actors[i].pc.outcome;
      var cleared := h.(pidfile := if removed then None else h.pidfile);
      if outcome == Stopped then Finish(cleared, i, Stopped) else Goto(cleared, i, Spawning(outcome))
    case Spawn(i, pid, start) =>
      Goto(h, i, Awaiting(h.actors[i].pc.outcome)).(
        procs := h.procs[pid := Proc(start, true, false, false)], lastStart := h.lastStart[pid := start],
        pidfile := Some(Record(pid, start)))
    case Respond(i, inTime) => Finish(h, i, if inTime then h.actors[i].pc.outcome else Failed)
    case Abort(i) => Finish(h, i, Failed)
    case Born(pid, start) =>
      h.(procs := h.procs[pid := Proc(start, false, false, false)], lastStart := h.lastStart[pid := start])
    case Die(pid) => h.(procs := h.procs - {pid})
  }

  function Run(first: Host, steps: seq<Step>): Option<Host> {
    if steps == [] then Some(first)
    else
      match Run(first, steps[..|steps| - 1])
      case None => None
      case Some(h) => if CanStep(h, steps[|steps| - 1]) then Some(Next(h, steps[|steps| - 1])) else None
  }

  // ----- The lock -----

  /** Exactly the holder of the lock is between taking it and letting it go. */
  predicate LockKept(h: Host) {
    forall i: nat :: i < |h.actors| ==> (HoldsLock(h.actors[i].pc) <==> h.lock == Some(i))
  }

  /** The lock is held by a command there is. */
  predicate HasHolder(h: Host) {
    LockKept(h) && (h.lock.Some? ==> h.lock.value < |h.actors|)
  }

  lemma EndKeepsLock(h: Host, step: Step)
    requires HasHolder(h) && CanStep(h, step) && (step.Abort? || step.Respond? || step.Clear? || step.CheckHealth?)
    ensures HasHolder(Next(h, step))
  {
  }

  lemma StopKeepsLock(h: Host, step: Step)
    requires HasHolder(h) && CanStep(h, step) && (step.Stop? || step.SeeGone? || step.Kill? || step.Spawn?)
    ensures HasHolder(Next(h, step))
  {
  }

  lemma StepKeepsLock(h: Host, step: Step)
    requires HasHolder(h) && CanStep(h, step)
    ensures HasHolder(Next(h, step))
  {
    if step.Abort? || step.Respond? || step.Clear? || step.CheckHealth? {
      EndKeepsLock(h, step);
    } else if step.Stop? || step.SeeGone? || step.Kill? || step.Spawn? {
      StopKeepsLock(h, step);
    }
  }

  // ----- The process table -----

  /** No process is older or newer than its pid's last start, and a record never matches a stranger. */
  predicate ProcsKept(h: Host) {
    && (forall pid <- h.procs :: pid in h.lastStart && h.procs[pid].start == h.lastStart[pid])
    && (h.pidfile.Some? ==> h.pidfile.value.pid in h.lastStart
                            && h.pidfile.value.start <= h.lastStart[h.pidfile.value.pid])
    && (RecordedIsAlive(h) ==> h.procs[h.pidfile.value.pid].isKeeper)
    && (forall pid <- h.procs :: h.procs[pid].termed || h.procs[pid].killed ==> h.procs[pid].isKeeper)
  }

  /** A command in its grace period still has the pidfile it read. */
  predicate GraceKept(h: Host) {
    forall i: nat :: i < |h.actors| && h.actors[i].pc.InGrace? ==> h.pidfile == Some(h.actors[i].pc.record)
  }

  ghost predicate HostKept(h: Host) {
    HasHolder(h) && ProcsKept(h) && GraceKept(h)
  }

  lemma StepKeepsGrace(h: Host, step: Step)
    requires LockKept(h) && GraceKept(h) && CanStep(h, step)
    ensures GraceKept(Next(h, step))
  {
    var next := Next(h, step);
    forall j: nat | j < |next.actors| && next.actors[j].pc.InGrace?
      ensures next.pidfile == Some(next.actors[j].pc.record)
    {
      assert j < |h.actors|;
    }
  }

  lemma BirthKeepsProcs(h: Host, step: Step)
    requires ProcsKept(h) && CanStep(h, step) && (step.Spawn? || step.Born?)
    ensures ProcsKept(Next(h, step))
  {
  }

  lemma SignalKeepsProcs(h: Host, step: Step)
    requires ProcsKept(h) && GraceKept(h) && CanStep(h, step) && (step.Stop? || step.Kill?)
    ensures ProcsKept(Next(h, step))
  {
  }

  lemma OtherStepKeepsProcs(h: Host, step: Step)
    requires ProcsKept(h) && CanStep(h, step)
    requires !step.Spawn? && !step.Born? && !step.Stop? && !step.Kill?
    ensures ProcsKept(Next(h, step))
  {
    var next := Next(h, step);
    assert forall pid <- next.procs :: pid in h.procs && next.procs[pid] == h.procs[pid];
  }

  lemma StepKeepsProcs(h: Host, step: Step)
    requires ProcsKept(h) && GraceKept(h) && CanStep(h, step)
    ensures ProcsKept(Next(h, step))
  {
    match step
    case Spawn(_, _, _) => BirthKeepsProcs(h, step);
    case Born(_, _) => BirthKeepsProcs(h, step);
    case Stop(_) => SignalKeepsProcs(h, step);
    case Kill(_) => SignalKeepsProcs(h, step);
    case _ => OtherStepKeepsProcs(h, step);
  }

  lemma StepKeepsHost(h: Host, step: Step)
    requires HostKept(h) && CanStep(h, step)
    ensures HostKept(Next(h, step))
  {
    StepKeepsLock(h, step);
    StepKeepsGrace(h, step);
    StepKeepsProcs(h, step);
  }

  lemma {:induction false} RunKeepsHost(first: Host, steps: seq<Step>)
    requires HostKept(first)
    ensures Run(first, steps).Some? ==> HostKept(Run(first, steps).value)
  {
    if steps != [] {
      var init := steps[..|steps| - 1];
      RunKeepsHost(first, init);
      if Run(first, init).Some? && CanStep(Run(first, init).value, steps[|steps| - 1]) {
        StepKeepsHost(Run(first, init).value, steps[|steps| - 1]);
      }
    }
  }

  lemma EveryRunKeepsHost(steps: seq<Step>)
    ensures Run(FRESH, steps).Some? ==> HostKept(Run(FRESH, steps).value)
  {
    RunKeepsHost(FRESH, steps);
  }

  /** Whatever dies, however pids are used again: at most one command is past its lock at any time. */
  lemma LockHolderIsUnique(steps: seq<Step>, i: nat, j: nat)
    requires Run(FRESH, steps).Some?
    requires var h := Run(FRESH, steps).value;
             i < |h.actors| && j < |h.actors| && HoldsLock(h.actors[i].pc) && HoldsLock(h.actors[j].pc)
    ensures i == j
  {
    EveryRunKeepsHost(steps);
  }

  /** Over every run, no process that is not one of the sandbox's keepers is ever sent a signal. */
  lemma OnlyKeepersAreSignalled(steps: seq<Step>, pid: nat)
    requires Run(FRESH, steps).Some? && pid in Run(FRESH, steps).value.procs
    requires var p := Run(FRESH, steps).value.procs[pid]; p.termed || p.killed
    ensures Run(FRESH, steps).value.procs[pid].isKeeper
  {
    EveryRunKeepsHost(steps);
  }

  // ----- One keeper -----

  /** A keeper that runs and has not been sent SIGKILL. */
  predicate IsStanding(h: Host, pid: nat) {
    pid in h.procs && h.procs[pid].isKeeper && !h.procs[pid].killed
  }

  /** At most one keeper stands, and it is the one in the pidfile. */
  ghost predicate StandsAlone(h: Host) {
    forall pid :: IsStanding(h, pid) ==> h.pidfile == Some(Record(pid, h.procs[pid].start))
  }

  /** Nor does one stand while it is being replaced. */
  ghost predicate KeeperKept(h: Host) {
    && StandsAlone(h)
    && (forall i: nat :: i < |h.actors| && (h.actors[i].pc.Clearing? || h.actors[i].pc.Spawning?) ==>
          forall pid :: !IsStanding(h, pid))
  }

  /** A health check finds the recorded keeper standing, but its socket refuses. */
  predicate IsRefused(h: Host, step: Step) {
    && step.CheckHealth? && !step.answers
    && RecordedIsAlive(h) && IsStanding(h, h.pidfile.value.pid)
  }

  lemma HolderIs(h: Host, i: nat)
    requires LockKept(h) && At(h, i) && HoldsLock(h.actors[i].pc)
    ensures h.lock == Some(i)
    ensures forall j: nat :: j < |h.actors| && j != i ==> !HoldsLock(h.actors[j].pc)
  {
  }

  lemma CheckStepKeepsKeeper(h: Host, step: Step)
    requires HostKept(h) && KeeperKept(h) && CanStep(h, step) && step.CheckHealth?
    ensures KeeperKept(Next(h, step)) <==> !IsRefused(h, step)
  {
    var next := Next(h, step);
    HolderIs(h, step.i);
    assert forall pid :: IsStanding(next, pid) <==> IsStanding(h, pid);
    if IsRefused(h, step) {
      assert next.actors[step.i].pc == Clearing(Recovered);
    }
  }

  lemma SignalStepKeepsKeeper(h: Host, step: Step)
    requires HostKept(h) && KeeperKept(h) && CanStep(h, step) && (step.Stop? || step.SeeGone? || step.Kill?)
    ensures KeeperKept(Next(h, step))
  {
    var next := Next(h, step);
    HolderIs(h, step.i);
    assert forall pid :: IsStanding(next, pid) ==> IsStanding(h, pid) && next.procs[pid].start == h.procs[pid].start;
  }

  lemma SpawnStepKeepsKeeper(h: Host, step: Step)
    requires HostKept(h) && KeeperKept(h) && CanStep(h, step) && step.Spawn?
    ensures KeeperKept(Next(h, step))
  {
    var next := Next(h, step);
    HolderIs(h, step.i);
    assert forall pid :: !IsStanding(h, pid);
    assert forall pid :: IsStanding(next, pid) ==> pid == step.pid || IsStanding(h, pid);
  }

  lemma QuietStepKeepsKeeper(h: Host, step: Step)
    requires HostKept(h) && KeeperKept(h) && CanStep(h, step)
    requires step.Clear? || step.Respond? || step.Abort? || step.Acquire? || step.Arrive?
    ensures KeeperKept(Next(h, step))
  {
    assert forall pid :: IsStanding(Next(h, step), pid) <==> IsStanding(h, pid);
  }

  lemma HostStepKeepsKeeper(h: Host, step: Step)
    requires KeeperKept(h) && CanStep(h, step) && (step.Born? || step.Die?)
    ensures KeeperKept(Next(h, step))
  {
    assert forall pid :: IsStanding(Next(h, step), pid) ==> IsStanding(h, pid);
  }

  /** One step keeps the keeper unique and recorded exactly when it is not the refused check of a standing one. */
  lemma StepKeepsKeeperIff(h: Host, step: Step)
    requires HostKept(h) && KeeperKept(h) && CanStep(h, step)
    ensures KeeperKept(Next(h, step)) <==> !IsRefused(h, step)
  {
    match step
    case CheckHealth(_, _) => CheckStepKeepsKeeper(h, step);
    case Stop(_) => SignalStepKeepsKeeper(h, step);
    case SeeGone(_) => SignalStepKeepsKeeper(h, step);
    case Kill(_) => SignalStepKeepsKeeper(h, step);
    case Spawn(_, _, _) => SpawnStepKeepsKeeper(h, step);
    case Born(_, _) => HostStepKeepsKeeper(h, step);
    case Die(_) => HostStepKeepsKeeper(h, step);
    case _ => QuietStepKeepsKeeper(h, step);
  }

  /** State is cleared, or a keeper spawned, beside one that stands. */
  ghost predicate Displaces(h: Host, step: Step) {
    ((step.Clear? && step.removed) || step.Spawn?) && exists pid :: IsStanding(h, pid)
  }

  lemma DisplacingStep(h: Host, step: Step)
    requires StandsAlone(h) && CanStep(h, step) && Displaces(h, step)
    ensures !StandsAlone(Next(h, step))
  {
    var pid :| IsStanding(h, pid);
    assert IsStanding(Next(h, step), pid);
  }

  lemma OtherStepStandsAlone(h: Host, step: Step)
    requires StandsAlone(h) && CanStep(h, step) && !Displaces(h, step)
    ensures StandsAlone(Next(h, step))
  {
    var next := Next(h, step);
    if step.Spawn? {
      assert forall pid :: IsStanding(next, pid) ==> pid == step.pid || IsStanding(h, pid);
    } else {
      assert forall pid :: IsStanding(next, pid) ==> IsStanding(h, pid) && next.procs[pid].start == h.procs[pid].start;
    }
  }

  // ----- Over whole runs -----

  /** Something holds of every state a run goes through. */
  ghost predicate Always(first: Host, p: Host -> bool, steps: seq<Step>) {
    && Run(first, steps).Some? && p(Run(first, steps).value)
    && (steps != [] ==> Always(first, p, steps[..|steps| - 1]))
  }

  /** No step of a run is of some kind where it is taken. */
  ghost predicate Never(first: Host, q: (Host, Step) -> bool, steps: seq<Step>) {
    steps != [] ==>
      && Never(first, q, steps[..|steps| - 1])
      && (Run(first, steps[..|steps| - 1]).Some? ==>
            !q(Run(first, steps[..|steps| - 1]).value, steps[|steps| - 1]))
  }

  /** What one kind of step breaks, and no other does, holds throughout exactly the runs without such a step. */
  lemma {:induction false} AlwaysIffNever(first: Host, p: Host -> bool, q: (Host, Step) -> bool, steps: seq<Step>)
    requires HostKept(first) && Run(first, steps).Some? && p(first)
    requires forall h, step :: HostKept(h) && p(h) && CanStep(h, step) ==> (p(Next(h, step)) <==> !q(h, step))
    ensures Always(first, p, steps) <==> Never(first, q, steps)
  {
    if steps != [] {
      var init, last := steps[..|steps| - 1], steps[|steps| - 1];
      AlwaysIffNever(first, p, q, init);
      RunKeepsHost(first, init);
      assert CanStep(Run(first, init).value, last);
    }
  }

  /** From any state that is in order: the keeper stays so exactly as long as no check of a standing one is refused. */
  lemma KeeperIsKeptIff(first: Host, steps: seq<Step>)
    requires HostKept(first) && KeeperKept(first) && Run(first, steps).Some?
    ensures Always(first, h => KeeperKept(h), steps) <==> Never(first, (h, step) => IsRefused(h, step), steps)
  {
    forall h, step | HostKept(h) && KeeperKept(h) && CanStep(h, step)
      ensures KeeperKept(Next(h, step)) <==> !IsRefused(h, step)
    {
      StepKeepsKeeperIff(h, step);
    }
    AlwaysIffNever(first, h => KeeperKept(h), (h, step) => IsRefused(h, step), steps);
  }

  /**
   * Over every interleaving of any number of commands, crashes and reuses of pids: the keeper is unique, recorded,
   * and never there while it is being replaced, at every moment of a run exactly if no health check of a standing
   * keeper is refused in it. A refused check of one already sent SIGKILL does no harm.
   */
  lemma OneKeeperIff(steps: seq<Step>)
    requires Run(FRESH, steps).Some?
    ensures Always(FRESH, h => KeeperKept(h), steps) <==> Never(FRESH, (h, step) => IsRefused(h, step), steps)
  {
    KeeperIsKeptIff(FRESH, steps);
  }

  /**
   * As long as no check of a standing keeper is refused, at most one keeper stands, and it is the one the pidfile
   * records.
   */
  lemma OneKeeper(steps: seq<Step>)
    requires Run(FRESH, steps).Some? && Never(FRESH, (h, step) => IsRefused(h, step), steps)
    ensures var h := Run(FRESH, steps).value;
            && (forall pid :: IsStanding(h, pid) ==> h.pidfile == Some(Record(pid, h.procs[pid].start)))
            && (forall p, q :: IsStanding(h, p) && IsStanding(h, q) ==> p == q)
    ensures KeeperKept(Run(FRESH, steps).value)
  {
    OneKeeperIff(steps);
    assert Always(FRESH, h => KeeperKept(h), steps);
  }

  // ----- Exactly when the keeper is not unique -----

  /** In this run command `i` was refused by a keeper that stood and was recorded so. */
  ghost predicate WasRefused(steps: seq<Step>, i: nat, keeper: Record) {
    exists k: nat :: k < |steps| && RefusedAt(steps, k, i, keeper)
  }

  ghost predicate RefusedAt(steps: seq<Step>, k: nat, i: nat, keeper: Record)
    requires k < |steps|
  {
    && steps[k] == CheckHealth(i, false) && Run(FRESH, steps[..k]).Some?
    && IsRefused(Run(FRESH, steps[..k]).value, steps[k])
    && Run(FRESH, steps[..k]).value.pidfile.value == keeper
  }

  lemma WasRefusedStays(steps: seq<Step>, step: Step, i: nat, keeper: Record)
    requires WasRefused(steps, i, keeper)
    ensures WasRefused(steps + [step], i, keeper)
  {
    var k: nat :| k < |steps| && RefusedAt(steps, k, i, keeper);
    assert (steps + [step])[..k] == steps[..k];
    assert RefusedAt(steps + [step], k, i, keeper);
  }

  lemma RefusedNow(steps: seq<Step>, h: Host, i: nat)
    requires Run(FRESH, steps) == Some(h) && IsRefused(h, CheckHealth(i, false))
    ensures WasRefused(steps + [CheckHealth(i, false)], i, h.pidfile.value)
  {
    var all := steps + [CheckHealth(i, false)];
    assert all[..|steps|] == steps;
    assert RefusedAt(all, |steps|, i, h.pidfile.value);
  }

  predicate IsReplacing(pc: Pc) {
    pc.Clearing? || pc.Spawning?
  }

  /** A command that is about to clear or spawn beside a standing keeper was refused by that keeper. */
  ghost predicate TracedToRefusal(steps: seq<Step>, h: Host) {
    forall i: nat, pid | i < |h.actors| && IsReplacing(h.actors[i].pc) && IsStanding(h, pid) ::
      WasRefused(steps, i, Record(pid, h.procs[pid].start))
  }

  /** Only a refused check brings a command to replacing while a keeper stands. */
  lemma StepTowardsReplacing(h: Host, step: Step, i: nat, pid: nat)
    requires HostKept(h) && StandsAlone(h) && CanStep(h, step) && !Displaces(h, step)
    requires i < |Next(h, step).actors| && IsReplacing(Next(h, step).actors[i].pc) && IsStanding(Next(h, step), pid)
    ensures i < |h.actors| && IsStanding(h, pid) && Next(h, step).procs[pid].start == h.procs[pid].start
    ensures IsReplacing(h.actors[i].pc)
         || (step == CheckHealth(i, false) && IsRefused(h, step) && h.pidfile.value.pid == pid)
  {
    if step.Spawn? {
      HolderIs(h, step.i);
    }
  }

  lemma StepKeepsTraced(steps: seq<Step>, h: Host, step: Step)
    requires Run(FRESH, steps) == Some(h) && HostKept(h) && StandsAlone(h) && TracedToRefusal(steps, h)
    requires CanStep(h, step) && !Displaces(h, step)
    ensures TracedToRefusal(steps + [step], Next(h, step))
  {
    var next := Next(h, step);
    forall i: nat, pid | i < |next.actors| && IsReplacing(next.actors[i].pc) && IsStanding(next, pid)
      ensures WasRefused(steps + [step], i, Record(pid, next.procs[pid].start))
    {
      StepTowardsReplacing(h, step, i, pid);
      if IsReplacing(h.actors[i].pc) {
        WasRefusedStays(steps, step, i, Record(pid, h.procs[pid].start));
      } else {
        RefusedNow(steps, h, i);
      }
    }
  }

  lemma {:induction false} AloneIsTraced(steps: seq<Step>)
    requires Always(FRESH, h => StandsAlone(h), steps)
    ensures TracedToRefusal(steps, Run(FRESH, steps).value)
  {
    if steps != [] {
      var init, last := steps[..|steps| - 1], steps[|steps| - 1];
      AloneIsTraced(init);
      EveryRunKeepsHost(init);
      var h := Run(FRESH, init).value;
      if Displaces(h, last) {
        DisplacingStep(h, last);
        assert false;
      } else {
        StepKeepsTraced(init, h, last);
        assert init + [last] == steps;
      }
    }
  }

  /** Command `i` replaces the keeper that refused it, though that keeper still stands. */
  ghost predicate Forgets(steps: seq<Step>, m: nat, i: nat, keeper: Record)
    requires m < |steps|
  {
    && (steps[m] == Clear(i, true) || (steps[m].Spawn? && steps[m].i == i))
    && WasRefused(steps[..m], i, keeper)
    && Run(FRESH, steps[..m]).Some?
    && IsSame(Run(FRESH, steps[..m]).value, keeper) && IsStanding(Run(FRESH, steps[..m]).value, keeper.pid)
  }

  lemma {:induction false} AlwaysThen(first: Host, p: Host -> bool, steps: seq<Step>, k: nat)
    requires Always(first, p, steps) && k <= |steps|
    ensures Run(first, steps[..k]).Some? && p(Run(first, steps[..k]).value)
  {
    if k == |steps| {
      assert steps[..k] == steps;
    } else {
      assert steps[..|steps| - 1][..k] == steps[..k];
      AlwaysThen(first, p, steps[..|steps| - 1], k);
    }
  }

  lemma RunThen(first: Host, steps: seq<Step>, m: nat)
    requires m < |steps| && Run(first, steps[..m + 1]).Some?
    ensures var h := Run(first, steps[..m]);
            h.Some? && CanStep(h.value, steps[m]) && Run(first, steps[..m + 1]).value == Next(h.value, steps[m])
  {
    assert steps[..m + 1][..m] == steps[..m];
  }

  /** Replacing a standing keeper is displacing it. */
  lemma ForgettingStep(steps: seq<Step>, m: nat, i: nat, keeper: Record)
    requires m < |steps| && Forgets(steps, m, i, keeper)
    ensures Displaces(Run(FRESH, steps[..m]).value, steps[m])
  {
    assert IsStanding(Run(FRESH, steps[..m]).value, keeper.pid);
  }

  /** Once a command has replaced a standing keeper, the keeper is not unique, or not the one recorded. */
  lemma ForgettingDisplaces(steps: seq<Step>, m: nat, i: nat, keeper: Record)
    requires m < |steps| && Forgets(steps, m, i, keeper)
    ensures !Always(FRESH, h => StandsAlone(h), steps)
  {
    ForgettingStep(steps, m, i, keeper);
    if Always(FRESH, h => StandsAlone(h), steps) {
      StaysAlone(steps, m);
    }
  }

  lemma StaysAlone(steps: seq<Step>, m: nat)
    requires m < |steps| && Always(FRESH, h => StandsAlone(h), steps)
    ensures Run(FRESH, steps[..m]).Some? && !Displaces(Run(FRESH, steps[..m]).value, steps[m])
  {
    AlwaysThen(FRESH, h => StandsAlone(h), steps, m);
    AlwaysThen(FRESH, h => StandsAlone(h), steps, m + 1);
    RunThen(FRESH, steps, m);
    AloneBeforeAndAfter(Run(FRESH, steps[..m]).value, steps[m]);
  }

  lemma AloneBeforeAndAfter(h: Host, step: Step)
    requires CanStep(h, step) && StandsAlone(h) && StandsAlone(Next(h, step))
    ensures !Displaces(h, step)
  {
    if Displaces(h, step) {
      DisplacingStep(h, step);
    }
  }

  /** The first step after which the keeper is not unique is such a replacement. */
  lemma {:induction false} SomeoneForgot(steps: seq<Step>) returns (m: nat, i: nat, keeper: Record)
    requires Run(FRESH, steps).Some? && !Always(FRESH, h => StandsAlone(h), steps)
    ensures m < |steps| && Forgets(steps, m, i, keeper)
  {
    var init, last := steps[..|steps| - 1], steps[|steps| - 1];
    if Always(FRESH, h => StandsAlone(h), init) {
      var h := Run(FRESH, init).value;
      if !Displaces(h, last) {
        OtherStepStandsAlone(h, last);
      }
      AloneIsTraced(init);
      var pid :| IsStanding(h, pid);
      m, i, keeper := |init|, last.i, Record(pid, h.procs[pid].start);
    } else {
      m, i, keeper := SomeoneForgot(init);
      assert init[..m] == steps[..m];
    }
  }

  /**
   * In a run the keeper is at some moment not unique, or not the one recorded, exactly if in it some command, refused
   * by the keeper it checked, goes on to clear or overwrite that keeper's record while the keeper still stands.
   */
  lemma LostKeeperIff(steps: seq<Step>)
    requires Run(FRESH, steps).Some?
    ensures !Always(FRESH, h => StandsAlone(h), steps)
       <==> exists m: nat, i: nat, keeper :: m < |steps| && Forgets(steps, m, i, keeper)
  {
    if Always(FRESH, h => StandsAlone(h), steps) {
      forall m: nat, i: nat, keeper | m < |steps| ensures !Forgets(steps, m, i, keeper) {
        if Forgets(steps, m, i, keeper) {
          ForgettingDisplaces(steps, m, i, keeper);
          assert false;
        }
      }
    } else {
      var m, i, keeper := SomeoneForgot(steps);
    }
  }

  /** However things go on from here, while no check of a standing keeper is refused, it stays unique and recorded. */
  ghost predicate SafeFrom(h: Host) {
    forall more: seq<Step> | Run(h, more).Some? && Never(h, (g, step) => IsRefused(g, step), more) ::
      StandsAlone(Run(h, more).value)
  }

  /** This is not safe: one more step, by nobody whose check is refused, displaces a standing keeper. */
  lemma DisplacedNext(h: Host, step: Step)
    requires StandsAlone(h) && CanStep(h, step) && Displaces(h, step)
    ensures !SafeFrom(h)
  {
    var more := [step];
    assert more[..0] == [];
    assert Run(h, []) == Some(h);
    assert Run(h, more) == Some(Next(h, step));
    assert Never(h, (g, step) => IsRefused(g, step), []);
    assert Never(h, (g, step) => IsRefused(g, step), more);
    DisplacingStep(h, step);
  }

  /** There is always a pid to spawn on. */
  lemma FreePid(h: Host) returns (pid: nat, start: nat)
    ensures CanStart(h, pid, start)
  {
    pid := Beyond(h.procs.Keys);
    start := 1 + if pid in h.lastStart then h.lastStart[pid] else 0;
  }

  /** A number larger than all of a set. */
  lemma {:induction false} Beyond(pids: set<nat>) returns (n: nat)
    ensures forall pid <- pids :: pid < n
  {
    if pids == {} {
      n := 0;
    } else {
      var pid :| pid in pids;
      var most := Beyond(pids - {pid});
      n := if pid < most then most else pid + 1;
      assert forall other <- pids :: other == pid || other in pids - {pid};
    }
  }

  /**
   * Being kept is more than being unique and recorded now: it is being safe. The states in which the keeper is kept
   * are exactly those from which no run without a refused check of a standing keeper loses that one.
   */
  lemma KeptIsSafe(h: Host)
    requires HostKept(h)
    ensures KeeperKept(h) <==> SafeFrom(h)
  {
    if KeeperKept(h) {
      forall more: seq<Step> | Run(h, more).Some? && Never(h, (g, step) => IsRefused(g, step), more)
        ensures StandsAlone(Run(h, more).value)
      {
        KeeperIsKeptIff(h, more);
        assert Always(h, g => KeeperKept(g), more);
      }
    } else if StandsAlone(h) {
      var i: nat, pid :| i < |h.actors| && (h.actors[i].pc.Clearing? || h.actors[i].pc.Spawning?) && IsStanding(h, pid);
      if h.actors[i].pc.Clearing? {
        DisplacedNext(h, Clear(i, true));
      } else {
        var free, start := FreePid(h);
        DisplacedNext(h, Spawn(i, free, start));
      }
    } else {
      assert Run(h, []) == Some(h) && Never(h, (g, step) => IsRefused(g, step), []);
    }
  }

  /**
   * A `down`, `rm` or `up --recreate` that goes on to clear the state, and an `up` about to spawn, do so with no
   * keeper standing: the one there was is gone, or has been sent SIGKILL.
   */
  lemma ReplacedKeeperIsStopped(steps: seq<Step>, i: nat, pid: nat)
    requires Run(FRESH, steps).Some? && Never(FRESH, (h, step) => IsRefused(h, step), steps)
    requires i < |Run(FRESH, steps).value.actors|
    requires var pc := Run(FRESH, steps).value.actors[i].pc; pc.Clearing? || pc.Spawning?
    ensures !IsStanding(Run(FRESH, steps).value, pid)
  {
    OneKeeper(steps);
  }

  lemma RunOneMore(first: Host, steps: seq<Step>, h: Host, step: Step)
    requires Run(first, steps) == Some(h) && CanStep(h, step)
    ensures Run(first, steps + [step]) == Some(Next(h, step))
  {
    assert (steps + [step])[..|steps|] == steps;
  }

  lemma {:induction false} RunOn(first: Host, steps: seq<Step>, h: Host, more: seq<Step>)
    requires Run(first, steps) == Some(h)
    ensures Run(first, steps + more) == Run(h, more)
    decreases |more|
  {
    if more == [] {
      assert steps + more == steps;
    } else {
      var all := steps + more;
      assert all[..|all| - 1] == steps + more[..|more| - 1] && all[|all| - 1] == more[|more| - 1];
      RunOn(first, steps, h, more[..|more| - 1]);
    }
  }

  /** What a refused command goes on to do. */
  function RefusedRest(n: nat, pid: nat, start: nat): seq<Step> {
    [CheckHealth(n, false)] + [Clear(n, true)] + [Spawn(n, pid, start)]
  }

  /**
   * A refused check is all it takes: wherever a command checks a standing keeper and is refused, its own next two
   * steps clear that keeper's record without stopping it, and start a second one beside it.
   */
  lemma RefusedCheckDoubles(h: Host, n: nat, pid: nat, start: nat)
    requires CanStep(h, CheckHealth(n, false)) && IsRefused(h, CheckHealth(n, false)) && CanStart(h, pid, start)
    ensures var after := Run(h, RefusedRest(n, pid, start));
            && after.Some? && h.pidfile.value.pid != pid
            && IsStanding(after.value, h.pidfile.value.pid) && IsStanding(after.value, pid)
            && after.value.pidfile == Some(Record(pid, start))
  {
    var check, clear, spawn := CheckHealth(n, false), Clear(n, true), Spawn(n, pid, start);
    var h1 := AfterRefusal(h, n);
    var h2 := AfterClear(h1, n, pid, start);
    ThreeSteps(h, check, h1, clear, h2, spawn);
    AfterSpawn(h2, n, pid, start, h.pidfile.value.pid);
  }

  lemma ThreeSteps(h: Host, a: Step, h1: Host, b: Step, h2: Host, c: Step)
    requires CanStep(h, a) && Next(h, a) == h1 && CanStep(h1, b) && Next(h1, b) == h2 && CanStep(h2, c)
    ensures Run(h, [a] + [b] + [c]) == Some(Next(h2, c))
  {
    RunOneMore(h, [], h, a);
    assert [] + [a] == [a];
    RunOneMore(h, [a], h1, b);
    RunOneMore(h, [a] + [b], h2, c);
  }

  lemma AfterRefusal(h: Host, n: nat) returns (h1: Host)
    requires CanStep(h, CheckHealth(n, false)) && IsRefused(h, CheckHealth(n, false))
    ensures h1 == Next(h, CheckHealth(n, false)) && h1.procs == h.procs && h1.lastStart == h.lastStart
    ensures CanStep(h1, Clear(n, true)) && h1.actors[n].pc == Clearing(Recovered)
  {
    h1 := Next(h, CheckHealth(n, false));
  }

  lemma AfterClear(h1: Host, n: nat, pid: nat, start: nat) returns (h2: Host)
    requires CanStep(h1, Clear(n, true)) && h1.actors[n].pc == Clearing(Recovered) && CanStart(h1, pid, start)
    ensures h2 == Next(h1, Clear(n, true)) && h2.procs == h1.procs && CanStep(h2, Spawn(n, pid, start))
  {
    h2 := Next(h1, Clear(n, true));
  }

  lemma AfterSpawn(h2: Host, n: nat, pid: nat, start: nat, other: nat)
    requires CanStep(h2, Spawn(n, pid, start)) && IsStanding(h2, other)
    ensures var after := Next(h2, Spawn(n, pid, start));
            && other != pid && IsStanding(after, other) && IsStanding(after, pid)
            && after.pidfile == Some(Record(pid, start))
  {
  }

  /** So from every state with a keeper standing and the lock free, one more `up` that is refused leads to two. */
  lemma RefusedKeeperIsDoubled(h: Host, pid: nat, start: nat)
    requires h.lock == None && RecordedIsAlive(h) && IsStanding(h, h.pidfile.value.pid) && CanStart(h, pid, start)
    ensures var n := |h.actors|;
            var after := Run(h, ([Arrive(Up)] + [Acquire(n)]) + RefusedRest(n, pid, start));
            && after.Some? && h.pidfile.value.pid != pid
            && IsStanding(after.value, h.pidfile.value.pid) && IsStanding(after.value, pid)
            && after.value.pidfile == Some(Record(pid, start))
  {
    var n := |h.actors|;
    RunOneMore(h, [], h, Arrive(Up));
    assert [] + [Arrive(Up)] == [Arrive(Up)];
    var h1 := Next(h, Arrive(Up));
    RunOneMore(h, [Arrive(Up)], h1, Acquire(n));
    RunOn(h, [Arrive(Up)] + [Acquire(n)], Next(h1, Acquire(n)), RefusedRest(n, pid, start));
    RefusedCheckDoubles(Next(h1, Acquire(n)), n, pid, start);
  }

  /** Such a state is one `up` away from a fresh host. */
  lemma OneUpStands(pid: nat, start: nat)
    requires start > 0
    ensures var steps := [Arrive(Up)] + [Acquire(0)] + [CheckHealth(0, true)]
                         + [Spawn(0, pid, start)] + [Respond(0, true)];
            var after := Run(FRESH, steps);
            && after.Some? && after.value.lock == None
            && RecordedIsAlive(after.value) && IsStanding(after.value, pid)
  {
    var s1 := [Arrive(Up)];
    RunOneMore(FRESH, [], FRESH, Arrive(Up));
    assert [] + s1 == s1;
    var h1 := Next(FRESH, Arrive(Up));
    RunOneMore(FRESH, s1, h1, Acquire(0));
    var h2 := Next(h1, Acquire(0));
    RunOneMore(FRESH, s1 + [Acquire(0)], h2, CheckHealth(0, true));
    var h3 := Next(h2, CheckHealth(0, true));
    RunOneMore(FRESH, s1 + [Acquire(0)] + [CheckHealth(0, true)], h3, Spawn(0, pid, start));
    var h4 := Next(h3, Spawn(0, pid, start));
    RunOneMore(FRESH, s1 + [Acquire(0)] + [CheckHealth(0, true)] + [Spawn(0, pid, start)], h4, Respond(0, true));
  }

  // ----- Concurrent ups -----

  /** Nothing but plain ups, none of which dies or is kept waiting too long, and no keeper that crashes. */
  predicate IsCalm(h: Host, step: Step) {
    match step
    case Arrive(command) => command == Up
    case CheckHealth(_, answers) => answers
    case Respond(_, inTime) => inTime
    case Abort(_) => false
    case Die(pid) => pid in h.procs ==> !h.procs[pid].isKeeper
    case _ => true
  }

  predicate IsCalmRun(first: Host, steps: seq<Step>) {
    steps != [] ==>
      && IsCalmRun(first, steps[..|steps| - 1])
      && (Run(first, steps[..|steps| - 1]).Some? ==> IsCalm(Run(first, steps[..|steps| - 1]).value, steps[|steps| - 1]))
  }

  /** The command that starts the keeper, from finding none. */
  predicate IsStarter(pc: Pc) {
    pc == Spawning(Started) || pc == Awaiting(Started) || pc == Done(Started)
  }

  predicate CalmKept(h: Host) {
    && (forall i: nat :: i < |h.actors| ==>
          && h.actors[i].command == Up
          && (h.actors[i].pc == Waiting || h.actors[i].pc == Checking || h.actors[i].pc == Done(AlreadyUp)
              || IsStarter(h.actors[i].pc)))
    && (forall i: nat, j: nat :: i < j < |h.actors| ==> !(IsStarter(h.actors[i].pc) && IsStarter(h.actors[j].pc)))
    && (h.pidfile == None ==>
          forall i: nat :: i < |h.actors| ==> !h.actors[i].pc.Awaiting? && !h.actors[i].pc.Done?)
    && (h.pidfile.Some? ==> RecordedIsAlive(h) && HasStarted(h))
  }

  /** Some command has started the keeper. */
  predicate HasStarted(h: Host) {
    exists i: nat :: i < |h.actors| && (h.actors[i].pc == Awaiting(Started) || h.actors[i].pc == Done(Started))
  }

  lemma StarterStays(h: Host, next: Host)
    requires HasStarted(h) && |h.actors| <= |next.actors|
    requires forall i: nat :: i < |h.actors| ==>
               next.actors[i].pc == h.actors[i].pc
               || (h.actors[i].pc == Awaiting(Started) && next.actors[i].pc == Done(Started))
               || (h.actors[i].pc != Awaiting(Started) && h.actors[i].pc != Done(Started))
    ensures HasStarted(next)
  {
    var i: nat :| i < |h.actors| && (h.actors[i].pc == Awaiting(Started) || h.actors[i].pc == Done(Started));
    assert next.actors[i].pc == Awaiting(Started) || next.actors[i].pc == Done(Started);
  }

  lemma SpawnerFindsNone(h: Host, i: nat)
    requires CalmKept(h) && i < |h.actors| && h.actors[i].pc.Spawning?
    ensures h.pidfile == None
  {
    forall k: nat | k < |h.actors|
      ensures h.actors[k].pc != Awaiting(Started) && h.actors[k].pc != Done(Started)
    {
      assert IsStarter(h.actors[i].pc);
    }
  }

  lemma CalmSpawn(h: Host, step: Step)
    requires HostKept(h) && CalmKept(h) && CanStep(h, step) && step.Spawn?
    ensures CalmKept(Next(h, step))
  {
    HolderIs(h, step.i);
    SpawnerFindsNone(h, step.i);
    assert Next(h, step).actors[step.i].pc == Awaiting(Started);
  }

  lemma CalmCheck(h: Host, step: Step)
    requires HostKept(h) && CalmKept(h) && CanStep(h, step) && step.CheckHealth? && step.answers
    ensures CalmKept(Next(h, step))
  {
    HolderIs(h, step.i);
    if h.pidfile.Some? {
      StarterStays(h, Next(h, step));
    }
  }

  lemma CalmArrival(h: Host, step: Step)
    requires CalmKept(h) && CanStep(h, step) && IsCalm(h, step) && (step.Arrive? || step.Acquire?)
    ensures CalmKept(Next(h, step))
  {
    if h.pidfile.Some? {
      StarterStays(h, Next(h, step));
    }
  }

  lemma CalmResponse(h: Host, step: Step)
    requires CalmKept(h) && CanStep(h, step) && IsCalm(h, step) && step.Respond?
    ensures CalmKept(Next(h, step))
  {
    StarterStays(h, Next(h, step));
  }

  lemma CalmProcess(h: Host, step: Step)
    requires HostKept(h) && CalmKept(h) && CanStep(h, step) && IsCalm(h, step)
    requires step.Born? || step.Die?
    ensures CalmKept(Next(h, step))
  {
    if h.pidfile.Some? {
      StarterStays(h, Next(h, step));
    }
  }

  lemma CalmStep(h: Host, step: Step)
    requires HostKept(h) && CalmKept(h) && CanStep(h, step) && IsCalm(h, step)
    ensures CalmKept(Next(h, step))
  {
    match step
    case Spawn(_, _, _) => CalmSpawn(h, step);
    case CheckHealth(_, _) => CalmCheck(h, step);
    case Born(_, _) => CalmProcess(h, step);
    case Die(_) => CalmProcess(h, step);
    case Arrive(_) => CalmArrival(h, step);
    case Acquire(_) => CalmArrival(h, step);
    case Respond(_, _) => CalmResponse(h, step);
    case _ =>
  }

  lemma {:induction false} CalmRunKeeps(steps: seq<Step>)
    requires Run(FRESH, steps).Some? && IsCalmRun(FRESH, steps)
    ensures CalmKept(Run(FRESH, steps).value)
  {
    if steps != [] {
      var init, last := steps[..|steps| - 1], steps[|steps| - 1];
      CalmRunKeeps(init);
      EveryRunKeepsHost(init);
      CalmStep(Run(FRESH, init).value, last);
    }
  }

  /**
   * Any number of plain ups at once, from nothing and with nothing crashing: when they have all returned, exactly
   * one of them returned Started and every other returned AlreadyUp, and the keeper recorded is alive.
   */
  lemma ExactlyOneStarts(steps: seq<Step>)
    requires Run(FRESH, steps).Some? && IsCalmRun(FRESH, steps)
    requires Run(FRESH, steps).value.actors != []
    requires forall a <- Run(FRESH, steps).value.actors :: a.pc.Done?
    ensures RecordedIsAlive(Run(FRESH, steps).value)
    ensures exists i: nat :: i < |Run(FRESH, steps).value.actors| && IsOnlyStarter(Run(FRESH, steps).value, i)
  {
    CalmRunKeeps(steps);
    var h := Run(FRESH, steps).value;
    assert h.actors[0].pc.Done?;
    var i: nat :| i < |h.actors| && (h.actors[i].pc == Awaiting(Started) || h.actors[i].pc == Done(Started));
    assert h.actors[i].pc.Done?;
    forall j: nat | j < |h.actors| && j != i
      ensures h.actors[j].pc == Done(AlreadyUp)
    {
      assert h.actors[j].pc.Done?;
      assert IsStarter(h.actors[i].pc);
    }
    assert IsOnlyStarter(h, i);
  }

  predicate IsOnlyStarter(h: Host, i: nat) {
    && i < |h.actors| && h.actors[i].pc == Done(Started)
    && forall j: nat :: j < |h.actors| && j != i ==> h.actors[j].pc == Done(AlreadyUp)
  }
}
