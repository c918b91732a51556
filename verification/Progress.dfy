/**
 * Once a child is done, its relay comes to an end: whatever the order in which the pumps, the reaper and the writer
 * take their steps, after so many of them nothing is left to do, and a client that stayed has everything.
 */
module Progress {
  import opened Wrappers
  import opened Frames
  import opened Relays
  import opened Client

  /** Steps of the relay's own threads; the others are the child's, the main thread's and the client's. */
  predicate IsOwn(act: Act) {
    act.Read? || act.Eof? || act.Send? || act.JoinOut? || act.JoinErr? || act.Wait? || act.Remove? || act.Report?
    || act.Deliver?
  }

  predicate ClientStays(acts: seq<Act>) {
    forall act <- acts :: !act.Break?
  }

  /** The threads have been started, the child has exited, and no one holds its pipes any more. */
  predicate IsEnding(r: Relay) {
    r.reaper != NotYet && r.child != Running && !r.out.isOpen && !r.err.isOpen
  }

  /** The reaper has reported, and the writer is done or gone. */
  predicate IsIdle(r: Relay) {
    r.reaper == Gone && (r.broken || r.taken == |r.sent|)
  }

  function StatusOf(child: Child): ExitStatus
    requires child != Running
  {
    child.status
  }

  // ----- Something can always be done -----

  function PumpAct(r: Relay, s: Stream): Act {
    var lane := LaneOf(r, s);
    if lane.pump.Holding? then (if HasRoom(r) then Send(s) else Deliver)
    else if lane.unread == [] then Eof(s)
    else Read(s, 1)
  }

  /** A step that can be taken: what the reaper waits for, or room in the queue for it. */
  function NextAct(r: Relay): Act {
    match r.reaper
    case NotYet => Start
    case JoiningOut => if r.out.pump == Ended then JoinOut else PumpAct(r, Output)
    case JoiningErr => if r.err.pump == Ended || r.err.pump == Absent then JoinErr else PumpAct(r, Errors)
    case Waiting => Wait
    case Removing(_) => if r.kind == Keeper then Remove else if HasRoom(r) then Report else Deliver
    case Reporting(_) => if HasRoom(r) then Report else Deliver
    case Gone => Deliver
  }

  lemma PumpCanAct(r: Relay, s: Stream)
    requires LaneOf(r, s).pump == Reading || LaneOf(r, s).pump.Holding?
    requires !LaneOf(r, s).isOpen && (r.kind == Ssh ==> !r.broken)
    ensures Enabled(r, PumpAct(r, s)) && IsOwn(PumpAct(r, s))
  {
  }

  lemma NextActIsEnabled(r: Relay)
    requires ReaperKept(r) && r.taken <= |r.sent| && (r.kind == Ssh ==> !r.broken)
    requires IsEnding(r) && !IsIdle(r)
    ensures Enabled(r, NextAct(r)) && IsOwn(NextAct(r))
  {
    if r.reaper == JoiningOut && r.out.pump != Ended {
      PumpCanAct(r, Output);
    } else if r.reaper == JoiningErr && r.err.pump != Ended && r.err.pump != Absent {
      PumpCanAct(r, Errors);
    }
  }

  /** The relay's threads can take no step exactly when the relay is idle: they never block one another. */
  lemma BlockedOnlyWhenIdle(json: Json, r: Relay)
    requires Kept(json, r) && IsEnding(r)
    ensures (forall act :: IsOwn(act) ==> !Enabled(r, act)) <==> IsIdle(r)
  {
    if !IsIdle(r) {
      NextActIsEnabled(r);
    }
  }

  /** At the end of a child only these steps are left, unless the client goes away. */
  lemma OnlyOwnActsAreLeft(r: Relay, act: Act)
    requires IsEnding(r) && ReaperKept(r) && Enabled(r, act)
    requires r.kind == Keeper ==> r.sent != []
    ensures IsOwn(act) || act.Break?
  {
  }

  // ----- And it comes to an end -----

  function PumpWork(pump: Pump): nat {
    if pump == Reading then 1 else if pump.Holding? then 3 else 0
  }

  function ReaperWork(reaper: Reaper): nat {
    match reaper
    case NotYet => 7
    case JoiningOut => 6
    case JoiningErr => 5
    case Waiting => 4
    case Removing(_) => 3
    case Reporting(_) => 2
    case Gone => 0
  }

  function LaneWork(lane: Lane): nat {
    4 * |lane.unread| + PumpWork(lane.pump)
  }

  /** A bound on the steps that are left to take. */
  function Work(r: Relay): nat
    requires r.taken <= |r.sent|
  {
    LaneWork(r.out) + LaneWork(r.err) + ReaperWork(r.reaper) + (|r.sent| - r.taken)
  }

  /** What does not change any more once the child is done. */
  predicate SameChild(r: Relay, t: Relay) {
    && t.kind == r.kind && t.broken == r.broken && IsEnding(r) && IsEnding(t)
    && t.out.written == r.out.written && t.err.written == r.err.written && StatusOf(t.child) == StatusOf(r.child)
  }

  lemma PumpActDescends(json: Json, r: Relay, act: Act)
    requires r.taken <= |r.sent| && IsEnding(r) && Enabled(r, act) && (act.Read? || act.Eof? || act.Send?)
    ensures Do(json, r, act).taken <= |Do(json, r, act).sent| && Work(Do(json, r, act)) < Work(r)
    ensures SameChild(r, Do(json, r, act))
  {
  }

  lemma ReaperActDescends(json: Json, r: Relay, act: Act)
    requires r.taken <= |r.sent| && IsEnding(r) && Enabled(r, act)
    requires act.JoinOut? || act.JoinErr? || act.Wait? || act.Remove? || act.Report?
    ensures Do(json, r, act).taken <= |Do(json, r, act).sent| && Work(Do(json, r, act)) < Work(r)
    ensures SameChild(r, Do(json, r, act))
  {
  }

  /** Each of these steps leaves less to do, for any kind of relay and whether or not its writer is gone. */
  lemma OwnActDescends(json: Json, r: Relay, act: Act)
    requires SmallControl(json) && Kept(json, r) && IsEnding(r) && IsOwn(act) && Enabled(r, act)
    ensures Kept(json, Do(json, r, act)) && Work(Do(json, r, act)) < Work(r) && SameChild(r, Do(json, r, act))
  {
    ActKeeps(json, r, act);
    if act.Read? || act.Eof? || act.Send? {
      PumpActDescends(json, r, act);
    } else if act.Deliver? {
      WrittenIfOrdered(json, r, r.taken);
    } else {
      ReaperActDescends(json, r, act);
    }
  }

  /**
   * Every continuation of a done child's relay in which the client stays is bounded by the work that was left, adds
   * nothing to what the child wrote, and can go on for as long as the relay is not idle.
   */
  lemma {:induction false} EveryScheduleEnds(json: Json, r: Relay, acts: seq<Act>)
    requires SmallControl(json) && Kept(json, r) && IsEnding(r)
    requires Exec(json, r, acts).Some? && ClientStays(acts)
    ensures var t := Exec(json, r, acts).value;
            && Kept(json, t) && SameChild(r, t) && |acts| + Work(t) <= Work(r)
            && ((forall act :: IsOwn(act) ==> !Enabled(t, act)) <==> IsIdle(t))
  {
    if acts == [] {
      BlockedOnlyWhenIdle(json, r);
    } else {
      var init, last := acts[..|acts| - 1], acts[|acts| - 1];
      EveryScheduleEnds(json, r, init);
      var before := Exec(json, r, init).value;
      OnlyOwnActsAreLeft(before, last);
      OwnActDescends(json, before, last);
      BlockedOnlyWhenIdle(json, Do(json, before, last));
    }
  }

  lemma ExecOneMore(json: Json, r: Relay, acts: seq<Act>, act: Act)
    requires Exec(json, r, acts).Some? && Enabled(Exec(json, r, acts).value, act)
    ensures Exec(json, r, acts + [act]) == Some(Do(json, Exec(json, r, acts).value, act))
  {
    assert (acts + [act])[..|acts|] == acts;
  }

  /** And there is such a continuation to the end. */
  lemma {:induction false} RelayCanEnd(json: Json, r: Relay, so: seq<Act>) returns (acts: seq<Act>)
    requires SmallControl(json) && Kept(json, r) && IsEnding(r)
    requires Exec(json, r, so).Some? && ClientStays(so)
    ensures so <= acts && ClientStays(acts) && Exec(json, r, acts).Some?
    ensures IsIdle(Exec(json, r, acts).value)
    decreases Work(r) - |so|
  {
    EveryScheduleEnds(json, r, so);
    var t := Exec(json, r, so).value;
    if IsIdle(t) {
      acts := so;
    } else {
      NextActIsEnabled(t);
      ExecOneMore(json, r, so, NextAct(t));
      EveryScheduleEnds(json, r, so + [NextAct(t)]);
      acts := RelayCanEnd(json, r, so + [NextAct(t)]);
    }
  }

  // ----- What the client has then -----

  /**
   * A connected client's session completes. From every reachable state in which the threads run, the child is done
   * and the client is there, however the relay goes on without losing the client: it stops after no more steps than
   * there was work, and when it can go no further the client has been given all the child's output and its code.
   */
  lemma ConnectedClientIsServed(json: Json, pty: bool, acts: seq<Act>, more: seq<Act>)
    requires json.Faithful() && SmallControl(json)
    requires Exec(json, Spawned(Keeper, pty), acts).Some?
    requires var r := Exec(json, Spawned(Keeper, pty), acts).value;
             && IsEnding(r) && !r.broken
             && Exec(json, r, more).Some? && ClientStays(more)
    ensures var r := Exec(json, Spawned(Keeper, pty), acts).value;
            var t := Exec(json, r, more).value;
            && r.taken <= |r.sent| && |more| <= Work(r)
            && ((forall act :: IsOwn(act) ==> !Enabled(t, act)) ==>
                  IsServed(json, t.wire, r.out.written, r.err.written, StatusOf(r.child)))
  {
    KindIsKept(json, Keeper, pty, acts);
    EveryRunKeeps(json, Keeper, pty, acts);
    var r := Exec(json, Spawned(Keeper, pty), acts).value;
    EveryScheduleEnds(json, r, more);
    var t := Exec(json, r, more).value;
    if IsIdle(t) {
      WholeRelayIsReceived(json, t);
    }
  }

  /** The same over SSH, where the queue holds 64 events: its bound never blocks the pumps and the reaper for good. */
  lemma SshClientIsServed(json: Json, pty: bool, acts: seq<Act>, more: seq<Act>)
    requires SmallControl(json)
    requires Exec(json, Spawned(Ssh, pty), acts).Some?
    requires var r := Exec(json, Spawned(Ssh, pty), acts).value;
             IsEnding(r) && Exec(json, r, more).Some? && ClientStays(more)
    ensures var r := Exec(json, Spawned(Ssh, pty), acts).value;
            var t := Exec(json, r, more).value;
            && r.taken <= |r.sent| && |more| <= Work(r)
            && ((forall act :: IsOwn(act) ==> !Enabled(t, act)) ==>
                  && t.taken == |t.sent|
                  && IsServedBySsh(t.sent, r.out.written, r.err.written, StatusOf(r.child)))
  {
    KindIsKept(json, Ssh, pty, acts);
    EveryRunKeeps(json, Ssh, pty, acts);
    var r := Exec(json, Spawned(Ssh, pty), acts).value;
    EveryScheduleEnds(json, r, more);
    var t := Exec(json, r, more).value;
    if IsIdle(t) {
      OneStatus(t);
    }
  }

  /** From each such state the relay can go on to its end. */
  lemma EveryRelayCanEnd(json: Json, kind: Kind, pty: bool, acts: seq<Act>)
    requires SmallControl(json)
    requires Exec(json, Spawned(kind, pty), acts).Some? && IsEnding(Exec(json, Spawned(kind, pty), acts).value)
    ensures var r := Exec(json, Spawned(kind, pty), acts).value;
            exists more: seq<Act> ::
              && ClientStays(more)
              && Exec(json, r, more).Some? && IsIdle(Exec(json, r, more).value)
  {
    EveryRunKeeps(json, kind, pty, acts);
    var more := RelayCanEnd(json, Exec(json, Spawned(kind, pty), acts).value, []);
  }
}
