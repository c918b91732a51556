/**
 * What the main thread of a connection does with what its client sends, over whole runs of the keeper: the input and
 * the signals it passes on, when it stops reading, and how it then sees its session off.
 */
module ReaderLoop {
  import opened Wrappers
  import opened Sequences
  import opened Frames
  import opened Relays
  import opened SessionRegistry
  import opened Sessions

  // ----- All the input, until it is closed -----

  /** The client closes the input of session `i`, or a write of it fails part way. */
  predicate EndsInput(step: Step, i: nat) {
    && step.On? && step.i == i && step.move.Receive?
    && (step.move.frame.StdinClosed? || (step.move.frame.Stdin? && step.move.written < |step.move.frame.bytes|))
  }

  /** The input a step brings to session `i`. */
  function InputIn(step: Step, i: nat): seq<Byte> {
    if step.On? && step.i == i && step.move.Receive? && step.move.frame.Stdin? then step.move.frame.bytes else []
  }

  /** All the input sent to session `i`. */
  function AllInput(steps: seq<Step>, i: nat): seq<Byte> {
    if steps == [] then [] else AllInput(steps[..|steps| - 1], i) + InputIn(steps[|steps| - 1], i)
  }

  /** Step `k` is the first that ends the input of session `i`; before it all was written, and of it a part. */
  ghost predicate EndedAt(steps: seq<Step>, i: nat, k: nat, stdin: seq<Byte>) {
    && k < |steps| && EndsInput(steps[k], i) && (forall j :: 0 <= j < k ==> !EndsInput(steps[j], i))
    && stdin == AllInput(steps[..k], i)
                + if steps[k].move.frame.Stdin? then InputIn(steps[k], i)[..steps[k].move.written] else []
  }

  /** The input is open exactly while nothing has ended it, and what was written is all that came until then. */
  ghost predicate InputIsGiven(steps: seq<Step>, i: nat, s: Session) {
    if s.stdinOpen then
      (forall step <- steps :: !EndsInput(step, i)) && s.stdin == AllInput(steps, i)
    else
      exists k: nat :: EndedAt(steps, i, k, s.stdin)
  }

  lemma {:induction false} NoInputYet(json: Json, steps: seq<Step>, i: nat)
    requires Run(json, steps).Some? && i >= |Run(json, steps).value.sessions|
    ensures forall step <- steps :: !(step.On? && step.i == i)
    ensures AllInput(steps, i) == []
  {
    if steps != [] {
      var init, last := steps[..|steps| - 1], steps[|steps| - 1];
      NoInputYet(json, init, i);
      assert steps == init + [last];
    }
  }

  lemma EndedStays(steps: seq<Step>, last: Step, i: nat, k: nat, stdin: seq<Byte>)
    requires EndedAt(steps, i, k, stdin)
    ensures EndedAt(steps + [last], i, k, stdin)
  {
    assert (steps + [last])[..k] == steps[..k];
  }

  lemma EndsNow(steps: seq<Step>, last: Step, i: nat, stdin: seq<Byte>)
    requires EndsInput(last, i) && forall step <- steps :: !EndsInput(step, i)
    requires stdin == AllInput(steps, i)
                      + if last.move.frame.Stdin? then last.move.frame.bytes[..last.move.written] else []
    ensures EndedAt(steps + [last], i, |steps|, stdin)
  {
    assert (steps + [last])[..|steps|] == steps;
  }

  lemma AllInputOfOneMore(steps: seq<Step>, last: Step, i: nat)
    ensures AllInput(steps + [last], i) == AllInput(steps, i) + InputIn(last, i)
  {
    assert (steps + [last])[..|steps|] == steps;
  }

  lemma MoveGivesInput(json: Json, steps: seq<Step>, table: Table, s: Session, i: nat, move: Move)
    requires InputIsGiven(steps, i, s) && CanMove(table, s, move)
    ensures InputIsGiven(steps + [On(i, move)], i, Moved(json, table, s, move).1)
  {
    var last, next := On(i, move), Moved(json, table, s, move).1;
    AllInputOfOneMore(steps, last, i);
    NothingInFront(AllInput(steps, i));
    if !s.stdinOpen {
      var k: nat :| EndedAt(steps, i, k, s.stdin);
      EndedStays(steps, last, i, k, s.stdin);
    } else if EndsInput(last, i) {
      EndsNow(steps, last, i, next.stdin);
    }
  }

  lemma OtherStepGivesNothing(steps: seq<Step>, last: Step, i: nat, s: Session)
    requires InputIsGiven(steps, i, s) && !(last.On? && last.i == i)
    ensures InputIsGiven(steps + [last], i, s)
  {
    AllInputOfOneMore(steps, last, i);
    NothingInFront(AllInput(steps, i));
    if !s.stdinOpen {
      var k: nat :| EndedAt(steps, i, k, s.stdin);
      EndedStays(steps, last, i, k, s.stdin);
    }
  }

  /**
   * Over every run the child's input is open exactly as long as no `StdinClosed` was received and no write failed
   * part way; until then every byte of every `Stdin` was written, in order, and afterwards no more than the part that
   * the failing write managed.
   */
  lemma {:induction false} AllInputIsGiven(json: Json, steps: seq<Step>, i: nat)
    requires Run(json, steps).Some? && i < |Run(json, steps).value.sessions|
    ensures InputIsGiven(steps, i, Run(json, steps).value.sessions[i])
  {
    var init, last := steps[..|steps| - 1], steps[|steps| - 1];
    assert steps == init + [last];
    var before := Run(json, init).value;
    if i < |before.sessions| {
      AllInputIsGiven(json, init, i);
      StepGivesInput(json, before, init, last, i);
    } else {
      ArrivalGivesNothing(json, init, last, i);
    }
  }

  lemma StepGivesInput(json: Json, sys: System, init: seq<Step>, last: Step, i: nat)
    requires CanStep(sys, last) && i < |sys.sessions| && InputIsGiven(init, i, sys.sessions[i])
    ensures InputIsGiven(init + [last], i, Next(json, sys, last).sessions[i])
  {
    if last.On? && last.i == i {
      MoveGivesInput(json, init, sys.table, sys.sessions[i], i, last.move);
    } else {
      OtherStepGivesNothing(init, last, i, sys.sessions[i]);
    }
  }

  lemma ArrivalGivesNothing(json: Json, init: seq<Step>, last: Step, i: nat)
    requires Run(json, init).Some? && CanStep(Run(json, init).value, last) && i >= |Run(json, init).value.sessions|
    requires i < |Next(json, Run(json, init).value, last).sessions|
    ensures InputIsGiven(init + [last], i, Next(json, Run(json, init).value, last).sessions[i])
  {
    NoInputYet(json, init, i);
    AllInputOfOneMore(init, last, i);
  }

  /** So a client whose writes succeed gives the child everything up to its first `StdinClosed`, and the end there. */
  lemma WholeInputIsGiven(json: Json, steps: seq<Step>, i: nat)
    requires Run(json, steps).Some? && i < |Run(json, steps).value.sessions|
    requires forall step <- steps :: InputIn(step, i) != [] ==> step.move.written >= |InputIn(step, i)|
    ensures var s := Run(json, steps).value.sessions[i];
            && (s.stdinOpen <==> forall step <- steps :: !ClosesInput(step, i))
            && (s.stdinOpen ==> s.stdin == AllInput(steps, i))
            && (!s.stdinOpen ==> exists k: nat ::
                  && k < |steps| && ClosesInput(steps[k], i) && (forall j :: 0 <= j < k ==> !ClosesInput(steps[j], i))
                  && s.stdin == AllInput(steps[..k], i))
  {
    AllInputIsGiven(json, steps, i);
    var s := Run(json, steps).value.sessions[i];
    forall step | step in steps ensures EndsInput(step, i) <==> ClosesInput(step, i) {
      assert EndsInput(step, i) && InputIn(step, i) == [] ==> step.move.frame.StdinClosed?;
    }
    if !s.stdinOpen {
      var k: nat :| EndedAt(steps, i, k, s.stdin);
      NothingInFront(AllInput(steps[..k], i));
    }
  }

  predicate ClosesInput(step: Step, i: nat) {
    step.On? && step.i == i && step.move.Receive? && step.move.frame.StdinClosed?
  }

  // ----- Signals -----

  function SignalIn(step: Step, i: nat): seq<SessionSignal> {
    if step.On? && step.i == i && step.move.Receive? && step.move.frame.Signal? then [step.move.frame.signal] else []
  }

  /** All the signals sent to session `i`. */
  function AllSignals(steps: seq<Step>, i: nat): seq<SessionSignal> {
    if steps == [] then [] else AllSignals(steps[..|steps| - 1], i) + SignalIn(steps[|steps| - 1], i)
  }

  lemma {:induction false} NoSignalYet(json: Json, steps: seq<Step>, i: nat)
    requires Run(json, steps).Some? && i >= |Run(json, steps).value.sessions|
    ensures AllSignals(steps, i) == []
  {
    if steps != [] {
      NoSignalYet(json, steps[..|steps| - 1], i);
    }
  }

  lemma MovePassesSignal(json: Json, table: Table, s: Session, i: nat, move: Move)
    requires CanMove(table, s, move)
    ensures Moved(json, table, s, move).1.signals == s.signals + SignalIn(On(i, move), i)
  {
  }

  lemma StepPassesSignal(json: Json, sys: System, step: Step, i: nat)
    requires CanStep(sys, step) && i < |sys.sessions|
    ensures Next(json, sys, step).sessions[i].signals == sys.sessions[i].signals + SignalIn(step, i)
  {
    if step.On? && step.i == i {
      MovePassesSignal(json, sys.table, sys.sessions[i], i, step.move);
    }
  }

  /** Every signal of the client's reaches the child's process group, in order and once, even with its input closed. */
  lemma {:induction false} AllSignalsArePassed(json: Json, steps: seq<Step>, i: nat)
    requires Run(json, steps).Some? && i < |Run(json, steps).value.sessions|
    ensures Run(json, steps).value.sessions[i].signals == AllSignals(steps, i)
  {
    var init, last := steps[..|steps| - 1], steps[|steps| - 1];
    if i >= |Run(json, init).value.sessions| {
      NoSignalYet(json, init, i);
    } else {
      AllSignalsArePassed(json, init, i);
      StepPassesSignal(json, Run(json, init).value, last, i);
    }
  }

  // ----- The end of reading -----

  function Receives(steps: seq<Step>, i: nat): nat {
    if steps == [] then 0
    else
      var last := steps[|steps| - 1];
      Receives(steps[..|steps| - 1], i) + if last.On? && last.i == i && last.move.Receive? then 1 else 0
  }

  /** The session has been on the list, and its reaper has taken it off. */
  predicate IsUnlisted(s: Session) {
    HasId(s) && !s.main.Registering? && !ShouldBeListed(s)
  }

  function ReadsLeft(s: Session): nat {
    if s.main.Reading? then 1 else 0
  }

  lemma WithinStaysUnlisted(json: Json, s: Session, act: Act)
    requires PhaseKept(s) && IsUnlisted(s) && IsRelayed(act) && Enabled(s.relay, act)
    ensures IsUnlisted(s.(relay := Do(json, s.relay, act)))
  {
    ReaperStaysListed(json, s.relay, act);
  }

  lemma MainStaysUnlisted(json: Json, table: Table, s: Session, move: Move)
    requires PhaseKept(s) && OrderKept(s.relay) && IsUnlisted(s) && CanMove(table, s, move) && !move.Within?
    ensures IsUnlisted(Moved(json, table, s, move).1)
  {
    assert !move.Deregister? && !move.Greeted? && !move.Begin?;
  }

  lemma StaysUnlisted(json: Json, table: Table, s: Session, move: Move)
    requires SessionKept(json, table, s) && IsUnlisted(s) && CanMove(table, s, move)
    ensures IsUnlisted(Moved(json, table, s, move).1)
  {
    if move.Within? {
      WithinStaysUnlisted(json, s, move.act);
    } else {
      MainStaysUnlisted(json, table, s, move);
    }
  }

  lemma MoveOnUnlisted(json: Json, table: Table, s: Session, move: Move)
    requires SessionKept(json, table, s) && IsUnlisted(s) && CanMove(table, s, move)
    ensures var t := Moved(json, table, s, move).1;
            IsUnlisted(t) && ReadsLeft(t) + (if move.Receive? then 1 else 0) <= ReadsLeft(s)
  {
    StaysUnlisted(json, table, s, move);
    ReadsOne(json, table, s, move);
  }

  /** With its id off the list, the main thread does not go back to reading. */
  lemma ReadsOne(json: Json, table: Table, s: Session, move: Move)
    requires IdKept(table, s) && PhaseKept(s) && OrderKept(s.relay) && IsUnlisted(s) && CanMove(table, s, move)
    ensures ReadsLeft(Moved(json, table, s, move).1) + (if move.Receive? then 1 else 0) <= ReadsLeft(s)
  {
    assert !move.Begin?;
  }

  /** Once the reaper has taken a session off the list, its main thread reads at most one more frame. */
  lemma {:induction false} ReadingStops(json: Json, steps: seq<Step>, more: seq<Step>, i: nat)
    requires SmallControl(json) && Run(json, steps).Some? && i < |Run(json, steps).value.sessions|
    requires IsUnlisted(Run(json, steps).value.sessions[i]) && Run(json, steps + more).Some?
    ensures i < |Run(json, steps + more).value.sessions|
    ensures var t := Run(json, steps + more).value.sessions[i];
            IsUnlisted(t) && ReadsLeft(t) + Receives(more, i) <= ReadsLeft(Run(json, steps).value.sessions[i])
    ensures Receives(more, i) <= 1
    decreases |more|
  {
    if more == [] {
      NothingInFront(steps);
    } else {
      var init, last := more[..|more| - 1], more[|more| - 1];
      assert more == init + [last];
      RunLast(json, steps, init, last);
      ReadingStops(json, steps, init, i);
      EveryRunKeepsSystem(json, steps + init);
      var before := Run(json, steps + init).value;
      assert SessionKept(json, before.table, before.sessions[i]);
      if last.On? && last.i == i {
        MoveOnUnlisted(json, before.table, before.sessions[i], last.move);
      }
    }
  }

  // ----- Escalation -----

  predicate Leaves(step: Step, i: nat) {
    step == On(i, Disconnect)
  }

  ghost predicate HasLeft(steps: seq<Step>, i: nat) {
    exists step <- steps :: Leaves(step, i)
  }

  /** The main thread is past its reading loop. */
  predicate IsLeaving(main: Main) {
    main.Leaving? || main.Terminating? || main.Pausing? || main.Killing? || main.Joining? || main.Finished?
  }

  /** The way out: nothing is sent before the client left, and nothing is left undone to a session still listed. */
  ghost predicate SeenOff(steps: seq<Step>, i: nat, s: Session) {
    && (HasLeft(steps, i) ==> IsLeaving(s.main))
    && (s.main.Leaving? ==> HasLeft(steps, i) || !ShouldBeListed(s))
    && (s.notes != [] ==> HasLeft(steps, i))
    && ((s.main.Joining? || s.main.Finished?) && SentKill !in s.notes ==> !ShouldBeListed(s))
  }

  lemma LeftStays(steps: seq<Step>, last: Step, i: nat)
    ensures HasLeft(steps + [last], i) <==> HasLeft(steps, i) || Leaves(last, i)
  {
    assert last in steps + [last];
    assert forall step <- steps :: step in steps + [last];
  }

  lemma MoveSeesOff(json: Json, steps: seq<Step>, table: Table, s: Session, i: nat, move: Move)
    requires SessionKept(json, table, s) && SeenOff(steps, i, s) && CanMove(table, s, move)
    ensures SeenOff(steps + [On(i, move)], i, Moved(json, table, s, move).1)
  {
    LeftStays(steps, On(i, move), i);
    if IsUnlisted(s) {
      StaysUnlisted(json, table, s, move);
    }
    if move.Within? || move.Deregister? {
      ThreadSeesOff(json, steps, table, s, i, move);
    } else {
      MainSeesOff(json, steps, table, s, i, move);
    }
  }

  /** The other threads change neither where the main thread is nor what it noted. */
  lemma ThreadSeesOff(json: Json, steps: seq<Step>, table: Table, s: Session, i: nat, move: Move)
    requires SeenOff(steps, i, s) && CanMove(table, s, move) && (move.Within? || move.Deregister?)
    requires HasLeft(steps, i) ==> HasLeft(steps + [On(i, move)], i)
    requires IsUnlisted(s) ==> IsUnlisted(Moved(json, table, s, move).1)
    ensures SeenOff(steps + [On(i, move)], i, Moved(json, table, s, move).1)
  {
    var t := Moved(json, table, s, move).1;
    assert t.main == s.main && t.notes == s.notes;
  }

  lemma MainSeesOff(json: Json, steps: seq<Step>, table: Table, s: Session, i: nat, move: Move)
    requires IdKept(table, s) && NotesKept(s) && SeenOff(steps, i, s) && CanMove(table, s, move)
    requires !move.Within? && !move.Deregister?
    requires HasLeft(steps + [On(i, move)], i) <==> HasLeft(steps, i) || Leaves(On(i, move), i)
    requires IsUnlisted(s) ==> IsUnlisted(Moved(json, table, s, move).1)
    ensures SeenOff(steps + [On(i, move)], i, Moved(json, table, s, move).1)
  {
  }

  lemma StepSeesOff(json: Json, sys: System, init: seq<Step>, last: Step, i: nat)
    requires SystemKept(json, sys) && CanStep(sys, last) && i < |sys.sessions| && SeenOff(init, i, sys.sessions[i])
    ensures SeenOff(init + [last], i, Next(json, sys, last).sessions[i])
  {
    assert SessionKept(json, sys.table, sys.sessions[i]);
    if last.On? && last.i == i {
      MoveSeesOff(json, init, sys.table, sys.sessions[i], i, last.move);
    } else {
      LeftStays(init, last, i);
    }
  }

  lemma ArrivalSeesOff(json: Json, init: seq<Step>, last: Step, i: nat)
    requires Run(json, init).Some? && CanStep(Run(json, init).value, last) && i >= |Run(json, init).value.sessions|
    requires i < |Next(json, Run(json, init).value, last).sessions|
    ensures SeenOff(init + [last], i, Next(json, Run(json, init).value, last).sessions[i])
  {
    NoInputYet(json, init, i);
    LeftStays(init, last, i);
  }

  lemma {:induction false} EveryRunSeesOff(json: Json, steps: seq<Step>, i: nat)
    requires SmallControl(json) && Run(json, steps).Some? && i < |Run(json, steps).value.sessions|
    ensures SeenOff(steps, i, Run(json, steps).value.sessions[i])
  {
    var init, last := steps[..|steps| - 1], steps[|steps| - 1];
    assert steps == init + [last];
    var before := Run(json, init).value;
    if i < |before.sessions| {
      EveryRunSeesOff(json, init, i);
      EveryRunKeepsSystem(json, init);
      StepSeesOff(json, before, init, last, i);
    } else {
      ArrivalSeesOff(json, init, last, i);
    }
  }

  /**
   * Nothing is sent to a session whose client has not gone away, and once it has, nothing more is read from it. The
   * main thread goes on to wait for the end only
   * once the session is off the list, or has been sent SIGKILL: one still listed when its client left is sent
   * SIGTERM, and one still listed after the grace period SIGKILL.
   */
  lemma EscalationIsComplete(json: Json, steps: seq<Step>, i: nat)
    requires SmallControl(json) && Run(json, steps).Some? && i < |Run(json, steps).value.sessions|
    ensures var sys := Run(json, steps).value;
            var s := sys.sessions[i];
            && ((exists step <- steps :: step == On(i, Disconnect)) ==> IsLeaving(s.main))
            && (s.notes != [] ==> exists step <- steps :: step == On(i, Disconnect))
            && ((s.main.Joining? || s.main.Finished?) && SentKill !in s.notes ==> s.main.id !in sys.table.sessions)
  {
    EveryRunSeesOff(json, steps, i);
    RegistryIsExactIfNamed(json, steps, i);
    var s := Run(json, steps).value.sessions[i];
    if step :| step in steps && step == On(i, Disconnect) {
      assert Leaves(step, i);
    }
    if s.notes != [] {
      var step :| step in steps && Leaves(step, i);
      assert step == On(i, Disconnect);
    }
  }

  lemma RegistryIsExactIfNamed(json: Json, steps: seq<Step>, i: nat)
    requires SmallControl(json) && Run(json, steps).Some? && i < |Run(json, steps).value.sessions|
    ensures var sys := Run(json, steps).value;
            var s := sys.sessions[i];
            HasId(s) ==> (s.main.id in sys.table.sessions <==> ShouldBeListed(s))
  {
    if HasId(Run(json, steps).value.sessions[i]) {
      RegistryIsExact(json, steps, i);
    }
  }
}
