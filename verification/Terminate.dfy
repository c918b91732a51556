/** Stopping a recorded process: SIGTERM, a grace period in which its identity is checked again and again, SIGKILL. */
module Terminate {
  import opened Wrappers
  import opened Lifecycle

  const POLL_MILLIS: nat := 50

  datatype Kind = SigTerm | SigKill

  /** A process: its start time, which the system reports, and which process it is, which nothing reports. */
  datatype Process = Process(start: nat, identity: nat)

  /** A signal: when it was sent, to which pid, and the process that had that pid then. */
  datatype Signal = Signal(kind: Kind, time: nat, pid: nat, target: Option<Process>)

  /** The process that has a pid at a time, if any. */
  type History = (nat, nat) -> Option<Process>

  /** Pids are used again, but only by processes that start strictly later. */
  ghost predicate IsHistory(history: History) {
    forall t: nat, u: nat, pid: nat :: t <= u && history(t, pid).Some? && history(u, pid).Some? ==>
      history(t, pid) == history(u, pid) || history(t, pid).value.start < history(u, pid).value.start
  }

  /** The pidfile was written at `written`, for the process `who`. */
  ghost predicate IsRecordOf(history: History, written: nat, r: Record, who: Process) {
    IsHistory(history) && history(written, r.pid) == Some(who) && who.start == r.start
  }

  /** What the identity check sees: a process under the recorded pid with the recorded start time. */
  predicate LooksSame(history: History, time: nat, r: Record) {
    history(time, r.pid).Some? && history(time, r.pid).value.start == r.start
  }

  /** The check is right: from the writing of the pidfile on it passes exactly while that very process runs. */
  lemma CheckIdentifies(history: History, written: nat, time: nat, r: Record, who: Process)
    requires IsRecordOf(history, written, r, who) && written <= time
    ensures LooksSame(history, time, r) <==> history(time, r.pid) == Some(who)
  {
    assert history(written, r.pid).Some?;
  }

  /** A sleep: when it began, and how long it was to be. */
  datatype Nap = Nap(time: nat, millis: nat)

  /** The operating system as one caller meets it: whatever it asks, time may pass and processes come and go. */
  class Os {
    const history: History
    /** How long each call takes beyond what was asked for. */
    const delay: nat -> nat
    var now: nat
    var calls: nat
    var naps: seq<Nap>
    var sent: seq<Signal>

    constructor (history: History, delay: nat -> nat, now: nat)
      ensures this.history == history && this.delay == delay && this.now == now && sent == [] && naps == []
    {
      this.history := history;
      this.delay := delay;
      this.now := now;
      calls := 0;
      naps := [];
      sent := [];
    }

    method Clock() returns (time: nat)
      modifies this`now, this`calls
      ensures time == now >= old(now)
    {
      now := now + delay(calls);
      calls := calls + 1;
      time := now;
    }

    method Sleep(millis: nat)
      modifies this`now, this`calls, this`naps
      ensures now >= old(now) + millis && naps == old(naps) + [Nap(old(now), millis)]
    {
      naps := naps + [Nap(now, millis)];
      now := now + millis + delay(calls);
      calls := calls + 1;
    }

    /** The identity check; a signal sent right after it meets the same process table. */
    method IsSameProcess(r: Record) returns (same: bool)
      modifies this`now, this`calls
      ensures now >= old(now) && (same <==> LooksSame(history, now, r))
    {
      now := now + delay(calls);
      calls := calls + 1;
      var process := history(now, r.pid);
      same := process.Some? && process.value.start == r.start;
    }

    method Send(kind: Kind, pid: nat)
      modifies this`sent
      ensures sent == old(sent) + [Signal(kind, now, pid, history(now, pid))]
    {
      sent := sent + [Signal(kind, now, pid, history(now, pid))];
    }
  }

  /** Every signal from `n` on was delivered to `who`. */
  predicate OnlyTo(sent: seq<Signal>, n: nat, who: Process) {
    forall k :: n <= k < |sent| ==> sent[k].target == Some(who)
  }

  predicate Killed(sent: seq<Signal>, n: nat) {
    exists k :: n <= k < |sent| && sent[k].kind == SigKill
  }

  /** So many polls fit a grace period: every one but the last left some of it. */
  predicate FitsGrace(polls: int, grace: nat) {
    0 <= polls && polls * POLL_MILLIS < grace + POLL_MILLIS
  }

  /** Every sleep from `n` on is one interval, begun on seeing the process still there. */
  predicate OnlyWhileThere(history: History, naps: seq<Nap>, n: nat, pid: nat, who: Process) {
    forall k :: n <= k < |naps| ==> naps[k].millis == POLL_MILLIS && history(naps[k].time, pid) == Some(who)
  }

  /** SIGTERM went first, and SIGKILL, if at all, after it: one of each at most. */
  predicate IsEscalation(sent: seq<Signal>, n: nat) {
    && n < |sent| <= n + 2 && sent[n].kind == SigTerm
    && (|sent| == n + 2 ==> sent[n + 1].kind == SigKill)
  }

  /** The escalation, on a process just identified; SIGKILL does not come before the grace period is over. */
  method TerminateAndWaitPid(os: Os, r: Record, grace: nat, ghost written: nat, ghost who: Process)
    requires IsRecordOf(os.history, written, r, who) && written <= os.now && LooksSame(os.history, os.now, r)
    modifies os
    ensures old(os.sent) <= os.sent && OnlyTo(os.sent, |old(os.sent)|, who) && IsEscalation(os.sent, |old(os.sent)|)
    ensures FitsGrace(|os.naps| - |old(os.naps)|, grace)
    ensures old(os.naps) <= os.naps && OnlyWhileThere(os.history, os.naps, |old(os.naps)|, r.pid, who)
    ensures os.history(os.now, r.pid) != Some(who) || Killed(os.sent, |old(os.sent)|)
    ensures Killed(os.sent, |old(os.sent)|) ==> os.now >= old(os.now) + grace
  {
    ghost var n := |os.sent|;
    CheckIdentifies(os.history, written, os.now, r, who);
    os.Send(SigTerm, r.pid);
    var start := os.Clock();
    var deadline := start + grace;
    while true
      invariant old(os.sent) <= os.sent && |os.sent| == n + 1 && OnlyTo(os.sent, n, who) && os.sent[n].kind == SigTerm
      invariant old(os.naps) <= os.naps && OnlyWhileThere(os.history, os.naps, |old(os.naps)|, r.pid, who)
      invariant FitsGrace(|os.naps| - |old(os.naps)|, grace)
      invariant os.now >= start + (|os.naps| - |old(os.naps)|) * POLL_MILLIS && start >= old(os.now)
      decreases deadline - os.now
    {
      var now := os.Clock();
      if now >= deadline {
        break;
      }
      var same := os.IsSameProcess(r);
      CheckIdentifies(os.history, written, os.now, r, who);
      if !same {
        return;
      }
      os.Sleep(POLL_MILLIS);
    }
    var same := os.IsSameProcess(r);
    CheckIdentifies(os.history, written, os.now, r, who);
    if same {
      os.Send(SigKill, r.pid);
      assert os.sent[n + 1].kind == SigKill;
    }
  }

  /**
   * The whole of it, from a pidfile written earlier for `who`: over every history of processes and pids, no signal
   * reaches any other process, the wait ends within the grace period, and afterwards `who` is gone or has been
   * sent SIGKILL. A pidfile that is absent is left alone.
   */
  method TerminateAndWait(os: Os, pidfile: Option<Record>, grace: nat, ghost written: nat, ghost who: Process)
    requires pidfile.Some? ==> IsRecordOf(os.history, written, pidfile.value, who) && written <= os.now
    modifies os
    ensures old(os.sent) <= os.sent && OnlyTo(os.sent, |old(os.sent)|, who)
    ensures os.sent == old(os.sent) || IsEscalation(os.sent, |old(os.sent)|)
    ensures pidfile == None ==> os.sent == old(os.sent)
    ensures pidfile.Some? ==> os.history(os.now, pidfile.value.pid) != Some(who) || Killed(os.sent, |old(os.sent)|)
    ensures old(os.naps) <= os.naps
    ensures pidfile == None ==> os.naps == old(os.naps)
    ensures pidfile.Some? ==> OnlyWhileThere(os.history, os.naps, |old(os.naps)|, pidfile.value.pid, who)
    ensures FitsGrace(|os.naps| - |old(os.naps)|, grace)
  {
    if pidfile == None {
      return;
    }
    var same := os.IsSameProcess(pidfile.value);
    if !same {
      CheckIdentifies(os.history, written, os.now, pidfile.value, who);
      return;
    }
    TerminateAndWaitPid(os, pidfile.value, grace, written, who);
  }
}
