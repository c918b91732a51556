/**
 * The keeper's sessions: any number of connections, each with its reader thread beside the threads that relay its
 * child, over one shared registry. Every step of every thread is a step of the system.
 */
module Sessions {
  import opened Wrappers
  import opened Sequences
  import opened Frames
  import opened Relays
  import opened SessionRegistry
  import Client
  import Progress

  /** Where a connection's main thread is, from the spawned child on. */
  datatype Main =
    | Allocating
    | Registering(id: U64)
    | Greeting(id: U64)
    | Starting(id: U64)
    | Reading(id: U64)
    | Checking(id: U64)
    | Leaving(id: U64)
    | Terminating(id: U64)
    | Pausing(id: U64)
    | Killing(id: U64)
    | Joining(id: U64)
    | Finished(id: U64)
    | GivenUp(id: U64)

  /** What the main thread saw and did once it stopped reading. */
  datatype Note = StillListed | SentTerm | SentKill

  /** `stdin` is what was written to the child's input, `signals` what its process group was sent for the client. */
  datatype Session = Session(
    info: SessionInfo, main: Main, relay: Relay, stdin: seq<Byte>, stdinOpen: bool, signals: seq<SessionSignal>,
    notes: seq<Note>)

  datatype System = System(table: Table, sessions: seq<Session>)

  /** Steps of one connection: those of its main thread, and those of the threads that relay. */
  datatype Move =
    | Allocate
    | Register
    | Greeted
    | Begin
    | Receive(frame: Frame, written: nat)
    | Disconnect
    | Check
    | CheckLeft
    | Terminate
    | CheckAgain
    | Kill
    | Join
    | Deregister
    | Within(act: Act)

  datatype Step = Accept(info: SessionInfo, pty: bool) | On(i: nat, move: Move)

  /** The last id a session can be given; the code's counter is 64 bits wide. */
  const LAST_ID: U64 := 0xffff_ffff_ffff_ffff

  /** The main thread and the reaper's registry step have moves of their own. */
  predicate IsRelayed(act: Act) {
    !act.Greet? && !act.Start? && !act.Remove?
  }

  predicate CanMove(table: Table, s: Session, move: Move) {
    match move
    case Allocate => s.main.Allocating? && table.lastId < LAST_ID
    case Register => s.main.Registering?
    case Greeted => s.main.Greeting? && (!s.relay.broken ==> Enabled(s.relay, Greet(s.main.id)))
    case Begin => s.main.Starting? && Enabled(s.relay, Start)
    case Receive(_, _) => s.main.Reading?
    case Disconnect => s.main.Reading?
    case Check => s.main.Checking?
    case CheckLeft => s.main.Leaving?
    case Terminate => s.main.Terminating?
    case CheckAgain => s.main.Pausing?
    case Kill => s.main.Killing?
    case Join => s.main.Joining? && s.relay.reaper == Gone && (s.relay.broken || s.relay.taken == |s.relay.sent|)
    case Deregister => !s.main.Allocating? && Enabled(s.relay, Remove)
    case Within(act) => IsRelayed(act) && Enabled(s.relay, act)
  }

  /** A received frame: input is written unless it was closed or writing failed part way; a signal is passed on. */
  function Served(s: Session, frame: Frame, written: nat): Session {
    match frame
    case Stdin(bytes) =>
      if !s.stdinOpen then s
      else if written < |bytes| then s.(stdin := s.stdin + bytes[..written], stdinOpen := false)
      else s.(stdin := s.stdin + bytes)
    case StdinClosed => s.(stdinOpen := false)
    case Signal(signal) => s.(signals := s.signals + [signal])
    case _ => s
  }

  function Moved(json: Json, table: Table, s: Session, move: Move): (Table, Session)
    requires CanMove(table, s, move)
  {
    match move
    case Allocate => (Taken(table), s.(main := Registering(table.lastId + 1)))
    case Register => (Listed(table, s.main.id, s.info), s.(main := Greeting(s.main.id)))
    case Greeted =>
      if s.relay.broken then (Removed(table, s.main.id), s.(main := GivenUp(s.main.id)))
      else (table, s.(main := Starting(s.main.id), relay := Do(json, s.relay, Greet(s.main.id))))
    case Begin => (table, s.(main := Main.Reading(s.main.id), relay := Do(json, s.relay, Start)))
    case Receive(frame, written) => (table, Served(s, frame, written).(main := Checking(s.main.id)))
    case Disconnect => (table, s.(main := Leaving(s.main.id)))
    case Check =>
      (table, s.(main := if s.main.id in table.sessions then Main.Reading(s.main.id) else Leaving(s.main.id)))
    case CheckLeft =>
      if s.main.id in table.sessions
      then (table, s.(main := Terminating(s.main.id), notes := s.notes + [StillListed]))
      else (table, s.(main := Joining(s.main.id)))
    case Terminate => (table, s.(main := Pausing(s.main.id), notes := s.notes + [SentTerm]))
    case CheckAgain =>
      if s.main.id in table.sessions
      then (table, s.(main := Killing(s.main.id), notes := s.notes + [StillListed]))
      else (table, s.(main := Joining(s.main.id)))
    case Kill => (table, s.(main := Joining(s.main.id), notes := s.notes + [SentKill]))
    case Join => (table, s.(main := Finished(s.main.id)))
    case Deregister => (Removed(table, s.main.id), s.(relay := Do(json, s.relay, Remove)))
    case Within(act) => (table, s.(relay := Do(json, s.relay, act)))
  }

  function Fresh(info: SessionInfo, pty: bool): Session {
    Session(info, Allocating, Spawned(Keeper, pty), [], true, [], [])
  }

  predicate CanStep(sys: System, step: Step) {
    step.On? ==> step.i < |sys.sessions| && CanMove(sys.table, sys.sessions[step.i], step.move)
  }

  function Next(json: Json, sys: System, step: Step): System
    requires CanStep(sys, step)
  {
    match step
    case Accept(info, pty) => sys.(sessions := sys.sessions + [Fresh(info, pty)])
    case On(i, move) =>
      var (table, s) := Moved(json, sys.table, sys.sessions[i], move);
      System(table, sys.sessions[i := s])
  }

  /** The keeper after a list of steps, as long as each could be taken. */
  function Run(json: Json, steps: seq<Step>): Option<System> {
    if steps == [] then Some(System(EMPTY, []))
    else
      var last := steps[|steps| - 1];
      match Run(json, steps[..|steps| - 1])
      case None => None
      case Some(sys) => if CanStep(sys, last) then Some(Next(json, sys, last)) else None
  }

  // ----- What every step keeps of one session -----

  predicate HasId(s: Session) {
    !s.main.Allocating?
  }

  /** A session is listed from registration until its reaper has removed it. */
  predicate ShouldBeListed(s: Session) {
    !s.main.Allocating? && !s.main.Registering? && !s.relay.reaper.Reporting? && s.relay.reaper != Gone
  }

  /** The id of a session is its own, it is listed while it should be, and the greeting names it. */
  ghost predicate IdKept(table: Table, s: Session) {
    HasId(s) ==>
      && 1 <= s.main.id <= table.lastId
      && (s.main.id in table.sessions <==> ShouldBeListed(s))
      && (s.main.id in table.sessions ==> table.sessions[s.main.id] == s.info)
      && (s.relay.sent != [] ==> s.relay.sent[0] == SpawnOk(s.main.id))
  }

  /** How far the main thread is says how far the relay can be. */
  predicate PhaseKept(s: Session) {
    && s.relay.kind == Keeper
    && (s.main.Allocating? || s.main.Registering? || s.main.Greeting? ==> s.relay.sent == [])
    && (s.main.Starting? ==> s.relay.sent != [] && s.relay.reaper == NotYet)
    && (s.relay.reaper == NotYet ==>
          s.main.Allocating? || s.main.Registering? || s.main.Greeting? || s.main.Starting?)
    && (s.main.Finished? ==> s.relay.reaper == Gone && (s.relay.broken || s.relay.taken == |s.relay.sent|))
    && !s.main.GivenUp?
    && (s.relay.broken ==> s.relay.sent != [])
  }

  /** The notes say exactly what was seen and sent on the way to where the main thread is. */
  predicate NotesKept(s: Session) {
    match s.main
    case Terminating(_) => s.notes == [StillListed]
    case Pausing(_) => s.notes == [StillListed, SentTerm]
    case Killing(_) => s.notes == [StillListed, SentTerm, StillListed]
    case Joining(_) =>
      s.notes == [] || s.notes == [StillListed, SentTerm]
      || s.notes == [StillListed, SentTerm, StillListed, SentKill]
    case Finished(_) =>
      s.notes == [] || s.notes == [StillListed, SentTerm]
      || s.notes == [StillListed, SentTerm, StillListed, SentKill]
    case _ => s.notes == []
  }

  ghost predicate SessionKept(json: Json, table: Table, s: Session) {
    Kept(json, s.relay) && IdKept(table, s) && PhaseKept(s) && NotesKept(s)
  }

  lemma MoveKeepsNotes(json: Json, table: Table, s: Session, move: Move)
    requires NotesKept(s) && CanMove(table, s, move)
    ensures NotesKept(Moved(json, table, s, move).1)
  {
  }

  lemma MoveKeepsRelay(json: Json, table: Table, s: Session, move: Move)
    requires SmallControl(json) && Kept(json, s.relay) && CanMove(table, s, move)
    ensures Kept(json, Moved(json, table, s, move).1.relay)
  {
    match move
    case Greeted =>
      if !s.relay.broken {
        ActKeeps(json, s.relay, Greet(s.main.id));
      }
    case Begin => ActKeeps(json, s.relay, Start);
    case Deregister => ActKeeps(json, s.relay, Remove);
    case Within(act) => ActKeeps(json, s.relay, act);
    case _ =>
  }

  /** What an act of the relay's threads or the child can change of what the main thread looks at. */
  lemma RelayedAct(json: Json, r: Relay, act: Act)
    requires r.kind == Keeper && OrderKept(r) && r.taken <= |r.sent| && IsRelayed(act) && Enabled(r, act)
    ensures var t := Do(json, r, act);
            && t.kind == Keeper && (t.reaper == NotYet <==> r.reaper == NotYet)
            && (r.reaper == NotYet ==> t.sent == r.sent) && (r.sent == [] ==> t.sent == []) && r.sent <= t.sent
            && (t.broken ==> t.sent != [] || r.broken)
  {
  }

  lemma IdleActs(json: Json, r: Relay, act: Act)
    requires OrderKept(r) && IsRelayed(act) && Enabled(r, act)
    requires r.reaper == Gone && (r.broken || r.taken == |r.sent|)
    ensures Do(json, r, act).reaper == Gone
    ensures Do(json, r, act).sent == r.sent && Do(json, r, act).taken == r.taken && Do(json, r, act).broken == r.broken
  {
  }

  lemma WithinKeepsPhase(json: Json, s: Session, act: Act)
    requires PhaseKept(s) && OrderKept(s.relay) && s.relay.taken <= |s.relay.sent|
    requires IsRelayed(act) && Enabled(s.relay, act)
    ensures PhaseKept(s.(relay := Do(json, s.relay, act)))
  {
    RelayedAct(json, s.relay, act);
    if s.main.Finished? {
      IdleActs(json, s.relay, act);
    }
  }

  /** Moves of the main thread alone leave the relay as it is. */
  lemma MainKeepsPhase(json: Json, table: Table, s: Session, move: Move)
    requires PhaseKept(s) && CanMove(table, s, move)
    requires !move.Within? && !move.Greeted? && !move.Begin? && !move.Deregister?
    ensures PhaseKept(Moved(json, table, s, move).1)
  {
    assert Moved(json, table, s, move).1.relay == s.relay;
  }

  lemma HandoverKeepsPhase(json: Json, table: Table, s: Session, move: Move)
    requires PhaseKept(s) && OrderKept(s.relay) && CanMove(table, s, move)
    requires move.Greeted? || move.Begin? || move.Deregister?
    ensures PhaseKept(Moved(json, table, s, move).1)
  {
  }

  lemma MoveKeepsPhase(json: Json, table: Table, s: Session, move: Move)
    requires PhaseKept(s) && Kept(json, s.relay) && CanMove(table, s, move)
    ensures PhaseKept(Moved(json, table, s, move).1)
  {
    if move.Within? {
      WithinKeepsPhase(json, s, move.act);
    } else if move.Greeted? || move.Begin? || move.Deregister? {
      HandoverKeepsPhase(json, table, s, move);
    } else {
      MainKeepsPhase(json, table, s, move);
    }
  }

  lemma WithinKeepsId(json: Json, table: Table, s: Session, act: Act)
    requires IdKept(table, s) && PhaseKept(s) && OrderKept(s.relay) && s.relay.taken <= |s.relay.sent|
    requires IsRelayed(act) && Enabled(s.relay, act)
    ensures IdKept(table, s.(relay := Do(json, s.relay, act)))
  {
    RelayedAct(json, s.relay, act);
    ReaperStaysListed(json, s.relay, act);
  }

  /** Only the registry's own step takes the reaper past the removal. */
  lemma ReaperStaysListed(json: Json, r: Relay, act: Act)
    requires r.kind == Keeper && IsRelayed(act) && Enabled(r, act)
    ensures var t := Do(json, r, act);
            (t.reaper.Reporting? || t.reaper == Gone) <==> (r.reaper.Reporting? || r.reaper == Gone)
  {
  }

  /** The moves that take an id, list it, or take it off the list. */
  lemma RegistryMoveKeepsId(json: Json, table: Table, s: Session, move: Move)
    requires table.Valid() && IdKept(table, s) && PhaseKept(s) && OrderKept(s.relay) && CanMove(table, s, move)
    requires move.Allocate? || move.Register? || move.Deregister?
    ensures Moved(json, table, s, move).0.Valid()
    ensures IdKept(Moved(json, table, s, move).0, Moved(json, table, s, move).1)
  {
  }

  lemma StartMoveKeepsId(json: Json, table: Table, s: Session, move: Move)
    requires table.Valid() && IdKept(table, s) && PhaseKept(s) && OrderKept(s.relay) && CanMove(table, s, move)
    requires move.Greeted? || move.Begin?
    ensures Moved(json, table, s, move).0.Valid()
    ensures IdKept(Moved(json, table, s, move).0, Moved(json, table, s, move).1)
  {
  }

  lemma MainMoveKeepsId(json: Json, table: Table, s: Session, move: Move)
    requires table.Valid() && IdKept(table, s) && CanMove(table, s, move)
    requires !move.Allocate? && !move.Register? && !move.Deregister? && !move.Greeted? && !move.Begin? && !move.Within?
    ensures Moved(json, table, s, move).0.Valid()
    ensures IdKept(Moved(json, table, s, move).0, Moved(json, table, s, move).1)
  {
    var (after, t) := Moved(json, table, s, move);
    assert after == table && t.relay == s.relay && t.main.id == s.main.id && t.info == s.info;
  }

  lemma MoveKeepsId(json: Json, table: Table, s: Session, move: Move)
    requires table.Valid() && IdKept(table, s) && PhaseKept(s) && OrderKept(s.relay) && CanMove(table, s, move)
    requires s.relay.taken <= |s.relay.sent|
    ensures Moved(json, table, s, move).0.Valid()
    ensures IdKept(Moved(json, table, s, move).0, Moved(json, table, s, move).1)
  {
    if move.Within? {
      WithinKeepsId(json, table, s, move.act);
    } else if move.Allocate? || move.Register? || move.Deregister? {
      RegistryMoveKeepsId(json, table, s, move);
    } else if move.Greeted? || move.Begin? {
      StartMoveKeepsId(json, table, s, move);
    } else {
      MainMoveKeepsId(json, table, s, move);
    }
  }

  // ----- What every step keeps of the system -----

  /** No two sessions of the keeper's lifetime have the same id. */
  predicate IdsDiffer(sessions: seq<Session>) {
    forall i, j :: 0 <= i < j < |sessions| && HasId(sessions[i]) && HasId(sessions[j]) ==>
      sessions[i].main.id != sessions[j].main.id
  }

  ghost predicate SystemKept(json: Json, sys: System) {
    && sys.table.Valid() && IdsDiffer(sys.sessions)
    && forall i :: 0 <= i < |sys.sessions| ==> SessionKept(json, sys.table, sys.sessions[i])
  }

  /** A move touches the registry at no id but the session's own, and gives out at most the next id. */
  lemma MoveIsLocal(json: Json, table: Table, s: Session, move: Move, id: nat)
    requires CanMove(table, s, move) && id <= table.lastId && (HasId(s) ==> s.main.id != id)
    ensures var (after, t) := Moved(json, table, s, move);
            && after.lastId >= table.lastId
            && (id in after.sessions <==> id in table.sessions)
            && (id in table.sessions ==> after.sessions[id] == table.sessions[id])
            && (HasId(t) ==> t.main.id != id)
  {
  }

  lemma OthersAreKept(json: Json, sys: System, i: nat, move: Move, j: nat)
    requires SystemKept(json, sys) && CanStep(sys, On(i, move)) && j < |sys.sessions| && j != i
    ensures SessionKept(json, Next(json, sys, On(i, move)).table, sys.sessions[j])
    ensures var t := Moved(json, sys.table, sys.sessions[i], move).1;
            HasId(t) && HasId(sys.sessions[j]) ==> t.main.id != sys.sessions[j].main.id
  {
    var other := sys.sessions[j];
    assert SessionKept(json, sys.table, other);
    if HasId(other) {
      MoveIsLocal(json, sys.table, sys.sessions[i], move, other.main.id);
    }
  }

  lemma MoveKeepsSession(json: Json, table: Table, s: Session, move: Move)
    requires SmallControl(json) && table.Valid() && SessionKept(json, table, s) && CanMove(table, s, move)
    ensures Moved(json, table, s, move).0.Valid()
    ensures SessionKept(json, Moved(json, table, s, move).0, Moved(json, table, s, move).1)
  {
    MoveKeepsRelay(json, table, s, move);
    MoveKeepsId(json, table, s, move);
    MoveKeepsPhase(json, table, s, move);
    MoveKeepsNotes(json, table, s, move);
  }

  lemma MoveKeepsIdsDifferent(json: Json, sys: System, i: nat, move: Move)
    requires SystemKept(json, sys) && CanStep(sys, On(i, move))
    ensures IdsDiffer(sys.sessions[i := Moved(json, sys.table, sys.sessions[i], move).1])
  {
    var t := Moved(json, sys.table, sys.sessions[i], move).1;
    forall j: nat | j < |sys.sessions| && j != i && HasId(t) && HasId(sys.sessions[j])
      ensures t.main.id != sys.sessions[j].main.id
    {
      OthersAreKept(json, sys, i, move, j);
    }
  }

  lemma MoveKeepsSessions(json: Json, sys: System, i: nat, move: Move)
    requires SmallControl(json) && SystemKept(json, sys) && CanStep(sys, On(i, move))
    ensures var (table, t) := Moved(json, sys.table, sys.sessions[i], move);
            var sessions := sys.sessions[i := t];
            && table.Valid()
            && forall j :: 0 <= j < |sessions| ==> SessionKept(json, table, sessions[j])
  {
    var (table, t) := Moved(json, sys.table, sys.sessions[i], move);
    MoveKeepsSession(json, sys.table, sys.sessions[i], move);
    forall j: nat | j < |sys.sessions| && j != i
      ensures SessionKept(json, table, sys.sessions[j])
    {
      OthersAreKept(json, sys, i, move, j);
    }
  }

  lemma MoveKeepsSystem(json: Json, sys: System, i: nat, move: Move)
    requires SmallControl(json) && SystemKept(json, sys) && CanStep(sys, On(i, move))
    ensures SystemKept(json, Next(json, sys, On(i, move)))
  {
    MoveKeepsIdsDifferent(json, sys, i, move);
    MoveKeepsSessions(json, sys, i, move);
  }

  lemma AcceptKeepsSystem(json: Json, sys: System, info: SessionInfo, pty: bool)
    requires SystemKept(json, sys)
    ensures SystemKept(json, Next(json, sys, Accept(info, pty)))
  {
    SpawnedIsKept(json, Keeper, pty);
    var next := Next(json, sys, Accept(info, pty));
    assert forall i :: 0 <= i < |sys.sessions| ==> next.sessions[i] == sys.sessions[i];
  }

  /** Every interleaving of any number of sessions keeps all of this. */
  lemma {:induction false} EveryRunKeepsSystem(json: Json, steps: seq<Step>)
    requires SmallControl(json)
    ensures Run(json, steps).Some? ==> SystemKept(json, Run(json, steps).value)
  {
    if steps != [] {
      var init, last := steps[..|steps| - 1], steps[|steps| - 1];
      EveryRunKeepsSystem(json, init);
      if Run(json, init).Some? && CanStep(Run(json, init).value, last) {
        match last
        case Accept(info, pty) => AcceptKeepsSystem(json, Run(json, init).value, info, pty);
        case On(i, move) => MoveKeepsSystem(json, Run(json, init).value, i, move);
      }
    }
  }

  // ----- The promises -----

  /**
   * The frames queued for a session are a prefix of SpawnOk (Stdout | Stderr)* Exit, the greeting names the
   * session's own id, and Exit is there only after both pumps ended, the child was reaped with that status, and
   * the id left the registry.
   */
  lemma FramesAreOrdered(json: Json, steps: seq<Step>, i: nat)
    requires SmallControl(json) && Run(json, steps).Some? && i < |Run(json, steps).value.sessions|
    ensures var sys := Run(json, steps).value;
            var s := sys.sessions[i];
            && Ordered(Keeper, s.relay.sent)
            && (s.relay.sent != [] ==> HasId(s) && s.relay.sent[0] == SpawnOk(s.main.id))
            && (HasExit(s.relay.sent) ==>
                  && PumpsEnded(s.relay) && s.relay.child.Reaped? && s.main.id !in sys.table.sessions
                  && s.relay.sent[|s.relay.sent| - 1] == Exit(s.relay.child.status))
  {
    EveryRunKeepsSystem(json, steps);
    assert SessionKept(json, Run(json, steps).value.table, Run(json, steps).value.sessions[i]);
  }

  /** Ids are never reused: no two sessions ever accepted share one, and the next one given out is new. */
  lemma IdsAreNeverReused(json: Json, steps: seq<Step>)
    requires SmallControl(json) && Run(json, steps).Some?
    ensures var sys := Run(json, steps).value;
            && IdsDiffer(sys.sessions)
            && forall i :: 0 <= i < |sys.sessions| && HasId(sys.sessions[i]) ==>
                 sys.sessions[i].main.id < Taken(sys.table).lastId
  {
    EveryRunKeepsSystem(json, steps);
    var sys := Run(json, steps).value;
    forall i | 0 <= i < |sys.sessions| && HasId(sys.sessions[i])
      ensures sys.sessions[i].main.id <= sys.table.lastId
    {
      assert SessionKept(json, sys.table, sys.sessions[i]);
    }
  }

  /** The registry lists a session exactly from its registration until its reaper, having reaped it, removes it. */
  lemma RegistryIsExact(json: Json, steps: seq<Step>, i: nat)
    requires SmallControl(json) && Run(json, steps).Some? && i < |Run(json, steps).value.sessions|
    requires HasId(Run(json, steps).value.sessions[i])
    ensures var sys := Run(json, steps).value;
            var s := sys.sessions[i];
            && (s.main.id in sys.table.sessions <==> ShouldBeListed(s))
            && (ShouldBeListed(s) ==> sys.table.sessions[s.main.id] == s.info)
  {
    EveryRunKeepsSystem(json, steps);
    assert SessionKept(json, Run(json, steps).value.table, Run(json, steps).value.sessions[i]);
  }

  lemma NotesFollowThePath(s: Session)
    requires NotesKept(s)
    ensures s.notes <= [StillListed, SentTerm, StillListed, SentKill]
    ensures s.main.Allocating? || s.main.Reading? || s.main.Checking? ==> s.notes == []
    ensures s.main.Finished? ==> |s.notes| % 2 == 0
  {
  }

  /**
   * Escalation, over every run: nothing is sent unless the session was seen listed, SIGKILL only after SIGTERM and
   * after the session was seen listed again, and nothing before the main thread stopped reading.
   */
  lemma EscalationIsChecked(json: Json, steps: seq<Step>, i: nat)
    requires SmallControl(json) && Run(json, steps).Some? && i < |Run(json, steps).value.sessions|
    ensures var s := Run(json, steps).value.sessions[i];
            && s.notes <= [StillListed, SentTerm, StillListed, SentKill]
            && (s.main.Allocating? || s.main.Reading? || s.main.Checking? ==> s.notes == [])
            && (s.main.Finished? ==> |s.notes| % 2 == 0)
  {
    EveryRunKeepsSystem(json, steps);
    assert SessionKept(json, Run(json, steps).value.table, Run(json, steps).value.sessions[i]);
    NotesFollowThePath(Run(json, steps).value.sessions[i]);
  }

  /** Sending the greeting never fails: the writer cannot be gone before it has had a frame to write. */
  lemma GreetingCannotFail(json: Json, steps: seq<Step>, i: nat)
    requires SmallControl(json) && Run(json, steps).Some? && i < |Run(json, steps).value.sessions|
    ensures var s := Run(json, steps).value.sessions[i];
            && !s.main.GivenUp?
            && (s.main.Greeting? ==> CanMove(Run(json, steps).value.table, s, Greeted) && !s.relay.broken)
  {
    EveryRunKeepsSystem(json, steps);
    assert SessionKept(json, Run(json, steps).value.table, Run(json, steps).value.sessions[i]);
  }

  /** A finished session whose client stayed has given that client the child's whole output and its exit code. */
  lemma FinishedSessionsAreReceived(json: Json, steps: seq<Step>, i: nat)
    requires json.Faithful() && SmallControl(json)
    requires Run(json, steps).Some? && i < |Run(json, steps).value.sessions|
    requires Run(json, steps).value.sessions[i].main.Finished? && !Run(json, steps).value.sessions[i].relay.broken
    ensures var r := Run(json, steps).value.sessions[i].relay;
            && r.child.Reaped?
            && Client.IsServed(json, r.wire, r.out.written, r.err.written, r.child.status)
  {
    EveryRunKeepsSystem(json, steps);
    var s := Run(json, steps).value.sessions[i];
    assert SessionKept(json, Run(json, steps).value.table, s);
    Client.WholeRelayIsReceived(json, s.relay);
  }

  // ----- Sessions complete -----

  /** A step of the relay's threads among the moves of a session. */
  predicate IsRelayMove(move: Move) {
    move.Deregister? || (move.Within? && Progress.IsOwn(move.act))
  }

  function MoveOf(act: Act): Move {
    if act == Remove then Deregister else Within(act)
  }

  predicate LosesClient(step: Step, i: nat) {
    step.On? && step.i == i && step.move.Within? && step.move.act.Break?
  }

  /** The client of session `i` does not go away. */
  predicate ClientStays(steps: seq<Step>, i: nat) {
    forall step <- steps :: !LosesClient(step, i)
  }

  function RelayStep(step: Step, i: nat): nat {
    if step.On? && step.i == i && IsRelayMove(step.move) then 1 else 0
  }

  /** How many of the steps are those of the relay of session `i`. */
  function RelayMoves(steps: seq<Step>, i: nat): nat {
    if steps == [] then 0 else RelayMoves(steps[..|steps| - 1], i) + RelayStep(steps[|steps| - 1], i)
  }

  /** The relay of an ending session, at least `n` steps nearer to its end. */
  ghost predicate IsNearer(json: Json, r: Relay, t: Relay, n: nat) {
    Kept(json, r) && Kept(json, t) && Progress.SameChild(r, t) && Progress.Work(t) + n <= Progress.Work(r)
  }

  lemma NearerTwice(json: Json, r: Relay, t: Relay, u: Relay, n: nat, m: nat)
    requires IsNearer(json, r, t, n) && IsNearer(json, t, u, m)
    ensures IsNearer(json, r, u, n + m)
  {
  }

  /** On a session whose child is done a move is one of the relay's threads, or leaves the relay as it is. */
  lemma EndingMove(json: Json, table: Table, s: Session, move: Move)
    requires Kept(json, s.relay) && PhaseKept(s) && CanMove(table, s, move) && Progress.IsEnding(s.relay)
    requires move.Within? ==> !move.act.Break?
    ensures if IsRelayMove(move) then
              var act := if move.Deregister? then Remove else move.act;
              && Enabled(s.relay, act) && Progress.IsOwn(act)
              && Moved(json, table, s, move).1.relay == Do(json, s.relay, act)
            else Moved(json, table, s, move).1.relay == s.relay
  {
    if move.Within? {
      Progress.OnlyOwnActsAreLeft(s.relay, move.act);
    }
  }

  /** Whatever the system does, the relay of an ending session only comes nearer to its end. */
  lemma MoveOnEnding(json: Json, table: Table, s: Session, move: Move)
    requires SmallControl(json) && Kept(json, s.relay) && PhaseKept(s) && CanMove(table, s, move)
    requires Progress.IsEnding(s.relay) && (move.Within? ==> !move.act.Break?)
    ensures IsNearer(json, s.relay, Moved(json, table, s, move).1.relay, if IsRelayMove(move) then 1 else 0)
  {
    EndingMove(json, table, s, move);
    if IsRelayMove(move) {
      Progress.OwnActDescends(json, s.relay, if move.Deregister? then Remove else move.act);
    }
  }

  lemma StepOnEnding(json: Json, sys: System, step: Step, i: nat)
    requires SmallControl(json) && SystemKept(json, sys) && CanStep(sys, step) && i < |sys.sessions|
    requires Progress.IsEnding(sys.sessions[i].relay) && !LosesClient(step, i)
    ensures IsNearer(json, sys.sessions[i].relay, Next(json, sys, step).sessions[i].relay, RelayStep(step, i))
  {
    assert SessionKept(json, sys.table, sys.sessions[i]);
    if step.On? && step.i == i {
      MoveOnEnding(json, sys.table, sys.sessions[i], step.move);
    }
  }

  /**
   * Whatever every thread of every session does next, as long as this client stays: this relay takes no more steps
   * than there was work, and once it can take none it has delivered, to a client that decodes its wire, the child's
   * whole output and its exit code. Nothing is required of the state that is reached.
   */
  lemma ConnectedSessionsComplete(json: Json, steps: seq<Step>, more: seq<Step>, i: nat)
    requires json.Faithful() && SmallControl(json)
    requires Run(json, steps).Some? && i < |Run(json, steps).value.sessions|
    requires var r := Run(json, steps).value.sessions[i].relay; Progress.IsEnding(r) && !r.broken
    requires Run(json, steps + more).Some? && ClientStays(more, i)
    ensures i < |Run(json, steps + more).value.sessions|
    ensures var r := Run(json, steps).value.sessions[i].relay;
            var after := Run(json, steps + more).value;
            && r.taken <= |r.sent| && RelayMoves(more, i) <= Progress.Work(r)
            && ((forall move :: IsRelayMove(move) ==> !CanMove(after.table, after.sessions[i], move)) ==>
                  Client.IsServed(json, after.sessions[i].relay.wire, r.out.written, r.err.written,
                                  Progress.StatusOf(r.child)))
  {
    EndingRun(json, steps, more, i);
    EveryRunKeepsSystem(json, steps + more);
    var after := Run(json, steps + more).value;
    var s := after.sessions[i];
    assert SessionKept(json, after.table, s);
    if !Progress.IsIdle(s.relay) {
      NextRelayMove(json, after.table, s);
    } else {
      Client.WholeRelayIsReceived(json, s.relay);
    }
  }

  lemma RunLast(json: Json, steps: seq<Step>, init: seq<Step>, last: Step)
    requires Run(json, steps + (init + [last])).Some?
    ensures Run(json, steps + init).Some? && CanStep(Run(json, steps + init).value, last)
    ensures Run(json, steps + (init + [last])).value == Next(json, Run(json, steps + init).value, last)
  {
    var all := steps + (init + [last]);
    assert all[..|all| - 1] == steps + init && all[|all| - 1] == last;
  }

  /** The relay of session `i` after a run. */
  function RelayAfter(json: Json, steps: seq<Step>, i: nat): Relay
    requires Run(json, steps).Some? && i < |Run(json, steps).value.sessions|
  {
    Run(json, steps).value.sessions[i].relay
  }

  lemma EndingRunStep(json: Json, r: Relay, steps: seq<Step>, init: seq<Step>, last: Step, i: nat, n: nat)
    requires SmallControl(json) && Run(json, steps + (init + [last])).Some? && Run(json, steps + init).Some?
    requires i < |Run(json, steps + init).value.sessions| && !LosesClient(last, i)
    requires IsNearer(json, r, RelayAfter(json, steps + init, i), n)
    ensures i < |Run(json, steps + (init + [last])).value.sessions|
    ensures IsNearer(json, r, RelayAfter(json, steps + (init + [last]), i), n + RelayStep(last, i))
  {
    RunLast(json, steps, init, last);
    EveryRunKeepsSystem(json, steps + init);
    var before := Run(json, steps + init).value;
    StepOnEnding(json, before, last, i);
    NearerTwice(json, r, before.sessions[i].relay, Next(json, before, last).sessions[i].relay, n, RelayStep(last, i));
  }

  lemma EndingRunStarts(json: Json, steps: seq<Step>, i: nat)
    requires SmallControl(json) && Run(json, steps).Some? && i < |Run(json, steps).value.sessions|
    requires Progress.IsEnding(RelayAfter(json, steps, i))
    ensures IsNearer(json, RelayAfter(json, steps, i), RelayAfter(json, steps, i), 0)
  {
    EveryRunKeepsSystem(json, steps);
    assert SessionKept(json, Run(json, steps).value.table, Run(json, steps).value.sessions[i]);
  }

  lemma {:induction false} EndingRun(json: Json, steps: seq<Step>, more: seq<Step>, i: nat)
    requires SmallControl(json)
    requires Run(json, steps).Some? && i < |Run(json, steps).value.sessions|
    requires Progress.IsEnding(RelayAfter(json, steps, i))
    requires Run(json, steps + more).Some? && ClientStays(more, i)
    ensures i < |Run(json, steps + more).value.sessions|
    ensures IsNearer(json, RelayAfter(json, steps, i), RelayAfter(json, steps + more, i), RelayMoves(more, i))
    decreases |more|
  {
    if more == [] {
      assert steps + more == steps;
      EndingRunStarts(json, steps, i);
    } else {
      var init, last := more[..|more| - 1], more[|more| - 1];
      assert more == init + [last];
      RunLast(json, steps, init, last);
      EndingRun(json, steps, init, i);
      EndingRunStep(json, RelayAfter(json, steps, i), steps, init, last, i, RelayMoves(init, i));
    }
  }

  lemma NextRelayMove(json: Json, table: Table, s: Session)
    requires Kept(json, s.relay) && PhaseKept(s) && Progress.IsEnding(s.relay) && !Progress.IsIdle(s.relay)
    ensures var move := MoveOf(Progress.NextAct(s.relay)); IsRelayMove(move) && CanMove(table, s, move)
  {
    Progress.NextActIsEnabled(s.relay);
  }

  /** One step by which the relay comes nearer to its end. */
  lemma NearerByOne(json: Json, steps: seq<Step>, i: nat) returns (step: Step)
    requires SmallControl(json) && Run(json, steps).Some? && i < |Run(json, steps).value.sessions|
    requires var r := Run(json, steps).value.sessions[i].relay; Progress.IsEnding(r) && !Progress.IsIdle(r)
    ensures !LosesClient(step, i) && Run(json, steps + [step]).Some?
    ensures i < |Run(json, steps + [step]).value.sessions|
    ensures IsNearer(json, Run(json, steps).value.sessions[i].relay,
                     Run(json, steps + [step]).value.sessions[i].relay, 1)
  {
    EveryRunKeepsSystem(json, steps);
    step := NextStep(json, Run(json, steps).value, i);
    RunOneMore(json, steps, step);
    StepOnEnding(json, Run(json, steps).value, step, i);
  }

  lemma NextStep(json: Json, sys: System, i: nat) returns (step: Step)
    requires SystemKept(json, sys) && i < |sys.sessions|
    requires Progress.IsEnding(sys.sessions[i].relay) && !Progress.IsIdle(sys.sessions[i].relay)
    ensures CanStep(sys, step) && !LosesClient(step, i) && RelayStep(step, i) == 1
  {
    assert SessionKept(json, sys.table, sys.sessions[i]);
    NextRelayMove(json, sys.table, sys.sessions[i]);
    step := On(i, MoveOf(Progress.NextAct(sys.sessions[i].relay)));
  }

  /** And from every such state the session can go on to where its relay is idle, by steps of its relay alone. */
  lemma {:induction false} SessionCanComplete(json: Json, steps: seq<Step>, i: nat) returns (more: seq<Step>)
    requires SmallControl(json) && Run(json, steps).Some? && i < |Run(json, steps).value.sessions|
    requires var r := Run(json, steps).value.sessions[i].relay; Progress.IsEnding(r) && r.taken <= |r.sent|
    ensures Run(json, steps + more).Some? && ClientStays(more, i)
    ensures i < |Run(json, steps + more).value.sessions|
    ensures Progress.IsIdle(Run(json, steps + more).value.sessions[i].relay)
    decreases Progress.Work(Run(json, steps).value.sessions[i].relay)
  {
    if Progress.IsIdle(Run(json, steps).value.sessions[i].relay) {
      more := [];
      assert steps + more == steps;
    } else {
      var step := NearerByOne(json, steps, i);
      var rest := SessionCanComplete(json, steps + [step], i);
      more := [step] + rest;
      Regroup(steps, [step], rest);
    }
  }

  /** In a reachable state the writer has never taken more than was queued. */
  lemma TakenWasQueued(json: Json, steps: seq<Step>, i: nat)
    requires SmallControl(json) && Run(json, steps).Some? && i < |Run(json, steps).value.sessions|
    ensures Run(json, steps).value.sessions[i].relay.taken <= |Run(json, steps).value.sessions[i].relay.sent|
  {
    EveryRunKeepsSystem(json, steps);
    assert SessionKept(json, Run(json, steps).value.table, Run(json, steps).value.sessions[i]);
  }

  /** From every reachable state in which its child is done, a session can go on to its end with its client there. */
  lemma EverySessionCanComplete(json: Json, steps: seq<Step>, i: nat)
    requires SmallControl(json) && Run(json, steps).Some? && i < |Run(json, steps).value.sessions|
    requires Progress.IsEnding(Run(json, steps).value.sessions[i].relay)
    ensures exists more: seq<Step> :: ClientStays(more, i) && HasCompleted(json, steps + more, i)
  {
    TakenWasQueued(json, steps, i);
    var more := SessionCanComplete(json, steps, i);
    assert HasCompleted(json, steps + more, i);
  }

  ghost predicate HasCompleted(json: Json, steps: seq<Step>, i: nat) {
    && Run(json, steps).Some? && i < |Run(json, steps).value.sessions|
    && Progress.IsIdle(Run(json, steps).value.sessions[i].relay)
  }

  lemma RunOneMore(json: Json, steps: seq<Step>, step: Step)
    requires Run(json, steps).Some? && CanStep(Run(json, steps).value, step)
    ensures Run(json, steps + [step]) == Some(Next(json, Run(json, steps).value, step))
  {
    assert (steps + [step])[..|steps|] == steps;
  }

  // ----- Nothing gets stuck -----

  /** Moves of the keeper's threads: neither the child's, nor its client's to send or to go away. */
  predicate IsKeepers(move: Move) {
    && !move.Receive? && !move.Disconnect?
    && !(move.Within? && (move.act.Write? || move.act.Close? || move.act.ChildExit? || move.act.Break?))
  }

  /** Everything has been relayed, and the main thread has ended or waits for its client to leave. */
  predicate IsOver(s: Session) {
    Progress.IsIdle(s.relay) && (s.main.Finished? || s.main.Reading?)
  }

  /** A step to take: the main thread's where it does not wait, and otherwise the relay's. */
  function NextMove(s: Session): Move {
    match s.main
    case Allocating => Allocate
    case Registering(_) => Register
    case Greeting(_) => Greeted
    case Starting(_) => Begin
    case Checking(_) => Check
    case Leaving(_) => CheckLeft
    case Terminating(_) => Terminate
    case Pausing(_) => CheckAgain
    case Killing(_) => Kill
    case _ => if Progress.IsIdle(s.relay) then Join else MoveOf(Progress.NextAct(s.relay))
  }

  /** Between its reads and its joins the main thread waits for no one. */
  lemma MainCanMove(table: Table, s: Session)
    requires PhaseKept(s) && OrderKept(s.relay) && table.lastId < LAST_ID
    requires !s.main.Reading? && !s.main.Joining? && !s.main.Finished?
    ensures IsKeepers(NextMove(s)) && CanMove(table, s, NextMove(s))
  {
  }

  lemma NextMoveCanBeTaken(json: Json, table: Table, s: Session)
    requires Kept(json, s.relay) && PhaseKept(s) && table.lastId < LAST_ID && !IsOver(s)
    requires s.relay.child != Running && !s.relay.out.isOpen && !s.relay.err.isOpen
    ensures IsKeepers(NextMove(s)) && CanMove(table, s, NextMove(s))
  {
    if !s.main.Reading? && !s.main.Joining? && !s.main.Finished? {
      MainCanMove(table, s);
    } else if !Progress.IsIdle(s.relay) {
      NextRelayMove(json, table, s);
    }
  }

  lemma IdleRelayCannotAct(r: Relay, act: Act)
    requires OrderKept(r) && Progress.IsIdle(r) && Enabled(r, act) && r.kind == Keeper
    ensures act.Write? || act.Close? || act.ChildExit?
  {
  }

  lemma NothingIsLeft(table: Table, s: Session, move: Move)
    requires PhaseKept(s) && OrderKept(s.relay) && IsOver(s) && CanMove(table, s, move)
    ensures !IsKeepers(move)
  {
    if move.Within? {
      IdleRelayCannotAct(s.relay, move.act);
    }
  }

  /**
   * While ids are left and once the child is done, one of the keeper's own threads can take a step, exactly until
   * everything has been relayed and the main thread has ended or only waits for its client to leave.
   */
  lemma NeverStuck(json: Json, steps: seq<Step>, i: nat)
    requires SmallControl(json) && Run(json, steps).Some? && i < |Run(json, steps).value.sessions|
    requires var s := Run(json, steps).value.sessions[i];
             s.relay.child != Running && !s.relay.out.isOpen && !s.relay.err.isOpen
    requires Run(json, steps).value.table.lastId < LAST_ID
    ensures var sys := Run(json, steps).value;
            (exists move :: IsKeepers(move) && CanMove(sys.table, sys.sessions[i], move)) <==> !IsOver(sys.sessions[i])
  {
    EveryRunKeepsSystem(json, steps);
    var sys := Run(json, steps).value;
    var s := sys.sessions[i];
    assert SessionKept(json, sys.table, s);
    if IsOver(s) {
      forall move | CanMove(sys.table, s, move) ensures !IsKeepers(move) {
        NothingIsLeft(sys.table, s, move);
      }
    } else {
      NextMoveCanBeTaken(json, sys.table, s);
    }
  }
}
