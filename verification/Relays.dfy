/**
 * How a running child's output and exit reach a client: one pump thread a stream, a reaper thread, a FIFO queue and
 * a single writer, as a step system. The keeper's control socket and the SSH server both relay in this way.
 */
module Relays {
  import opened Wrappers
  import opened Frames

  const CHUNK: nat := 8192
  const SSH_QUEUE: nat := 64

  /** Which server relays: over the keeper's socket behind a greeting, or over an SSH channel. */
  datatype Kind = Keeper | Ssh

  datatype Stream = Output | Errors

  /** A pump reads a chunk, holds it while sending, and ends at end of file or when sending fails. */
  datatype Pump = Absent | Unstarted | Reading | Holding(chunk: seq<Byte>) | Ended

  /** One output stream: all the child ever wrote to it, what no pump has read yet, and its pump. */
  datatype Lane = Lane(written: seq<Byte>, unread: seq<Byte>, isOpen: bool, pump: Pump)

  datatype Child = Running | Exited(status: ExitStatus) | Reaped(status: ExitStatus)

  /** The reaper joins the pumps, waits for the child, lets go of its registration, and reports. */
  datatype Reaper =
    | NotYet | JoiningOut | JoiningErr | Waiting | Removing(status: ExitStatus) | Reporting(status: ExitStatus) | Gone

  /**
   * `sent` is everything ever put into the queue, of which the writer has taken `taken`; `wire` is what it has
   * written to the keeper's socket. Once `broken`, the writer is gone and sending fails. On an SSH channel the
   * writer hands what it takes to the channel as it is.
   */
  datatype Relay = Relay(
    kind: Kind, out: Lane, err: Lane, child: Child, reaper: Reaper,
    sent: seq<Frame>, taken: nat, wire: seq<Byte>, broken: bool)

  datatype Act =
    | Write(stream: Stream, bytes: seq<Byte>)
    | Close(stream: Stream)
    | ChildExit(status: ExitStatus)
    | Greet(id: U64)
    | Start
    | Read(stream: Stream, n: nat)
    | Eof(stream: Stream)
    | Send(stream: Stream)
    | JoinOut
    | JoinErr
    | Wait
    | Remove
    | Report
    | Deliver
    | Break(cut: nat)

  /** A child just spawned; a pty has no separate error stream. */
  function Spawned(kind: Kind, pty: bool): Relay {
    var errLane := if pty then Lane([], [], false, Absent) else Lane([], [], true, Unstarted);
    Relay(kind, Lane([], [], true, Unstarted), errLane, Running, NotYet, [], 0, [], false)
  }

  function LaneOf(r: Relay, s: Stream): Lane {
    if s == Output then r.out else r.err
  }

  function WithLane(r: Relay, s: Stream, lane: Lane): Relay {
    if s == Output then r.(out := lane) else r.(err := lane)
  }

  function WithPump(r: Relay, s: Stream, pump: Pump): Relay {
    WithLane(r, s, LaneOf(r, s).(pump := pump))
  }

  function Wrap(s: Stream, chunk: seq<Byte>): Frame {
    if s == Output then Stdout(chunk) else Stderr(chunk)
  }

  predicate HasRoom(r: Relay) {
    r.kind == Ssh ==> |r.sent| - r.taken < SSH_QUEUE
  }

  /** Sending on the queue: it fails, and nothing is put in, once the writer is gone. */
  function Sent(r: Relay, frame: Frame): Relay {
    if r.broken then r else r.(sent := r.sent + [frame])
  }

  predicate Enabled(r: Relay, act: Act) {
    match act
    case Write(s, _) => LaneOf(r, s).isOpen
    case Close(s) => LaneOf(r, s).isOpen
    case ChildExit(_) => r.child == Running
    case Greet(_) => r.kind == Keeper && r.sent == [] && r.reaper == NotYet
    case Start => r.reaper == NotYet && (r.kind == Keeper ==> r.sent != [])
    case Read(s, n) => LaneOf(r, s).pump == Reading && 1 <= n <= CHUNK && n <= |LaneOf(r, s).unread|
    case Eof(s) => LaneOf(r, s).pump == Reading && LaneOf(r, s).unread == [] && !LaneOf(r, s).isOpen
    case Send(s) => LaneOf(r, s).pump.Holding? && HasRoom(r)
    case JoinOut => r.reaper == JoiningOut && r.out.pump == Ended
    case JoinErr => r.reaper == JoiningErr && (r.err.pump == Ended || r.err.pump == Absent)
    case Wait => r.reaper == Waiting && r.child.Exited?
    case Remove => r.reaper.Removing? && r.kind == Keeper
    case Report => HasRoom(r) && (r.reaper.Reporting? || (r.reaper.Removing? && r.kind == Ssh))
    case Deliver => r.taken < |r.sent| && !r.broken
    case Break(_) => r.taken < |r.sent| && !r.broken && r.kind == Keeper
  }

  function Do(json: Json, r: Relay, act: Act): Relay
    requires Enabled(r, act)
  {
    match act
    case Write(s, bytes) =>
      var lane := LaneOf(r, s);
      WithLane(r, s, lane.(written := lane.written + bytes, unread := lane.unread + bytes))
    case Close(s) => WithLane(r, s, LaneOf(r, s).(isOpen := false))
    case ChildExit(status) => r.(child := Exited(status))
    case Greet(id) => Sent(r, SpawnOk(id))
    case Start =>
      r.(out := r.out.(pump := Reading),
         err := if r.err.pump == Absent then r.err else r.err.(pump := Reading),
         reaper := JoiningOut)
    case Read(s, n) =>
      var lane := LaneOf(r, s);
      WithLane(r, s, lane.(unread := lane.unread[n..], pump := Holding(lane.unread[..n])))
    case Eof(s) => WithPump(r, s, Ended)
    case Send(s) => WithPump(Sent(r, Wrap(s, LaneOf(r, s).pump.chunk)), s, if r.broken then Ended else Reading)
    case JoinOut => r.(reaper := JoiningErr)
    case JoinErr => r.(reaper := Waiting)
    case Wait => r.(child := Reaped(r.child.status), reaper := Removing(r.child.status))
    case Remove => r.(reaper := Reporting(r.reaper.status))
    case Report => Sent(r, Exit(r.reaper.status)).(reaper := Gone)
    case Deliver =>
      var wire := if r.kind == Ssh then Ok([]) else Encode(json, r.sent[r.taken]);
      if wire.Ok? then r.(taken := r.taken + 1, wire := r.wire + wire.value) else r.(broken := true)
    case Break(cut) =>
      var wire := Encode(json, r.sent[r.taken]);
      r.(broken := true,
         wire := r.wire + if wire.Ok? && cut <= |wire.value| then wire.value[..cut] else [])
  }

  /** The state after a list of acts, as long as each could be taken. */
  function Exec(json: Json, first: Relay, acts: seq<Act>): Option<Relay> {
    if acts == [] then Some(first)
    else
      match Exec(json, first, acts[..|acts| - 1])
      case None => None
      case Some(r) =>
        if Enabled(r, acts[|acts| - 1]) then Some(Do(json, r, acts[|acts| - 1])) else None
  }

  // ----- Bytes in the queue -----

  predicate IsOutput(frame: Frame) {
    frame.Stdout? || frame.Stderr?
  }

  function BytesIn(frame: Frame, s: Stream): seq<Byte> {
    if (s == Output && frame.Stdout?) || (s == Errors && frame.Stderr?) then frame.bytes else []
  }

  /** What a list of frames carries of one stream. */
  function BytesOf(frames: seq<Frame>, s: Stream): seq<Byte> {
    if frames == [] then [] else BytesOf(frames[..|frames| - 1], s) + BytesIn(frames[|frames| - 1], s)
  }

  lemma BytesOfOneMore(frames: seq<Frame>, frame: Frame, s: Stream)
    ensures BytesOf(frames + [frame], s) == BytesOf(frames, s) + BytesIn(frame, s)
  {
    assert (frames + [frame])[..|frames|] == frames;
  }

  function InHand(pump: Pump): seq<Byte> {
    if pump.Holding? then pump.chunk else []
  }

  // ----- What every step keeps: bytes -----

  /** Nothing of a stream is lost, invented or reordered between the child and the queue. */
  predicate LaneHolds(lane: Lane, sent: seq<Byte>, broken: bool) {
    && sent <= lane.written
    && (!broken ==> lane.written == sent + (InHand(lane.pump) + lane.unread))
    && (lane.pump == Ended && !broken ==> lane.unread == [] && !lane.isOpen)
    && (lane.pump == Absent ==> lane.written == [] && !lane.isOpen)
    && (lane.pump.Holding? ==> |lane.pump.chunk| <= CHUNK)
  }

  predicate LaneKept(r: Relay, s: Stream) {
    LaneHolds(LaneOf(r, s), BytesOf(r.sent, s), r.broken)
  }

  predicate LanesKept(r: Relay) {
    LaneKept(r, Output) && LaneKept(r, Errors)
  }

  lemma SentLeavesLane(r: Relay, frame: Frame, s: Stream)
    requires LaneKept(r, s) && BytesIn(frame, s) == []
    ensures LaneKept(Sent(r, frame), s)
  {
    BytesOfOneMore(r.sent, frame, s);
    assert BytesOf(r.sent, s) + [] == BytesOf(r.sent, s);
  }

  lemma SendHoldsLane(lane: Lane, sent: seq<Byte>)
    requires LaneHolds(lane, sent, false) && lane.pump.Holding?
    ensures LaneHolds(lane.(pump := Reading), sent + lane.pump.chunk, false)
  {
    assert sent + (lane.pump.chunk + lane.unread) == (sent + lane.pump.chunk) + ([] + lane.unread);
  }

  lemma WriteHoldsLane(lane: Lane, sent: seq<Byte>, broken: bool, bytes: seq<Byte>)
    requires LaneHolds(lane, sent, broken) && lane.isOpen
    ensures LaneHolds(lane.(written := lane.written + bytes, unread := lane.unread + bytes), sent, broken)
  {
    assert (sent + (InHand(lane.pump) + lane.unread)) + bytes == sent + (InHand(lane.pump) + (lane.unread + bytes));
  }

  lemma ReadHoldsLane(lane: Lane, sent: seq<Byte>, broken: bool, n: nat)
    requires LaneHolds(lane, sent, broken) && lane.pump == Reading && n <= CHUNK && n <= |lane.unread|
    ensures LaneHolds(lane.(unread := lane.unread[n..], pump := Holding(lane.unread[..n])), sent, broken)
  {
    assert [] + lane.unread == lane.unread[..n] + lane.unread[n..];
  }

  lemma ActKeepsLane(json: Json, r: Relay, act: Act, s: Stream)
    requires LaneKept(r, s) && ReaperKept(r) && Enabled(r, act)
    ensures LaneKept(Do(json, r, act), s)
  {
    var lane, sent := LaneOf(r, s), BytesOf(r.sent, s);
    if act.Greet? {
      SentLeavesLane(r, SpawnOk(act.id), s);
    } else if act.Report? {
      SentLeavesLane(r, Exit(r.reaper.status), s);
    } else if act.Send? && act.stream != s {
      SentLeavesLane(r, Wrap(act.stream, LaneOf(r, act.stream).pump.chunk), s);
    } else if act.Send? {
      BytesOfOneMore(r.sent, Wrap(s, lane.pump.chunk), s);
      if !r.broken {
        SendHoldsLane(lane, sent);
      }
    } else if act == Write(s, if act.Write? then act.bytes else []) {
      WriteHoldsLane(lane, sent, r.broken, act.bytes);
    } else if act == Read(s, if act.Read? then act.n else 0) {
      ReadHoldsLane(lane, sent, r.broken, act.n);
    } else {
      QuietActKeepsLane(json, r, act, s);
    }
  }

  /** The other acts queue nothing, and leave the bytes of the stream where they are. */
  lemma QuietActKeepsLane(json: Json, r: Relay, act: Act, s: Stream)
    requires LaneKept(r, s) && ReaperKept(r) && Enabled(r, act)
    requires !act.Greet? && !act.Report? && !act.Send?
    requires (act.Write? || act.Read?) ==> act.stream != s
    ensures LaneKept(Do(json, r, act), s)
  {
    var next := Do(json, r, act);
    assert next.sent == r.sent && (r.broken ==> next.broken);
    var lane, after := LaneOf(r, s), LaneOf(next, s);
    assert after.written == lane.written && after.unread == lane.unread && InHand(after.pump) == InHand(lane.pump);
  }

  // ----- What every step keeps: order -----

  /** `[SpawnOk] (Stdout | Stderr)* [Exit]`: a greeting first on the keeper's socket, at most one Exit, and last. */
  predicate Ordered(kind: Kind, sent: seq<Frame>) {
    && (forall k :: 0 <= k < |sent| ==>
          || IsOutput(sent[k])
          || (k == 0 && kind == Keeper && sent[k].SpawnOk?)
          || (k == |sent| - 1 && sent[k].Exit? && (kind == Keeper ==> k > 0)))
    && (kind == Keeper && sent != [] ==> sent[0].SpawnOk?)
  }

  /** The session was reported: Exit is in the queue, where it can only be last. */
  predicate HasExit(sent: seq<Frame>) {
    sent != [] && sent[|sent| - 1].Exit?
  }

  predicate PumpsEnded(r: Relay) {
    r.out.pump == Ended && (r.err.pump == Ended || r.err.pump == Absent)
  }

  /** How far the reaper is says what has happened before it. */
  predicate ReaperKept(r: Relay) {
    match r.reaper
    case NotYet => r.out.pump == Unstarted && (r.err.pump == Unstarted || r.err.pump == Absent) && !r.child.Reaped?
    case JoiningOut => r.out.pump != Unstarted && r.out.pump != Absent && r.err.pump != Unstarted && !r.child.Reaped?
    case JoiningErr => r.out.pump == Ended && r.err.pump != Unstarted && !r.child.Reaped?
    case Waiting => PumpsEnded(r) && !r.child.Reaped?
    case Removing(status) => PumpsEnded(r) && r.child == Reaped(status)
    case Reporting(status) => PumpsEnded(r) && r.child == Reaped(status)
    case Gone => PumpsEnded(r) && r.child.Reaped?
  }

  predicate OrderKept(r: Relay) {
    && Ordered(r.kind, r.sent) && ReaperKept(r)
    && (HasExit(r.sent) ==> r.reaper == Gone && r.sent[|r.sent| - 1] == Exit(r.child.status))
    && (r.reaper == Gone && !r.broken ==> HasExit(r.sent))
    && (r.kind == Keeper && r.sent == [] ==> r.reaper == NotYet)
    && (r.kind == Ssh ==> !r.broken)
  }

  /** Everything in the queue is small enough to be written, and a pty sends nothing on its error stream. */
  predicate FramesKept(r: Relay) {
    && (forall k :: 0 <= k < |r.sent| && IsOutput(r.sent[k]) ==> |r.sent[k].bytes| <= CHUNK)
    && (r.err.pump == Absent ==> forall k :: 0 <= k < |r.sent| ==> !r.sent[k].Stderr?)
  }

  lemma OutputKeepsOrder(r: Relay, frame: Frame)
    requires OrderKept(r) && IsOutput(frame) && r.reaper != Gone && (r.kind == Keeper ==> r.sent != [])
    ensures OrderKept(Sent(r, frame))
  {
    var sent := r.sent + [frame];
    assert forall k :: 0 <= k < |r.sent| ==> sent[k] == r.sent[k];
  }

  lemma ReportKeepsOrder(json: Json, r: Relay)
    requires OrderKept(r) && Enabled(r, Report)
    ensures OrderKept(Do(json, r, Report))
  {
    var sent := r.sent + [Exit(r.reaper.status)];
    assert forall k :: 0 <= k < |r.sent| ==> sent[k] == r.sent[k];
    assert sent[|r.sent|].Exit? && !HasExit(r.sent);
  }

  lemma GreetKeepsOrder(json: Json, r: Relay, id: U64)
    requires OrderKept(r) && Enabled(r, Greet(id))
    ensures OrderKept(Do(json, r, Greet(id)))
  {
    assert r.sent + [SpawnOk(id)] == [SpawnOk(id)];
  }

  lemma ReaperActKeepsOrder(json: Json, r: Relay, act: Act)
    requires OrderKept(r) && Enabled(r, act) && (act.JoinOut? || act.JoinErr? || act.Wait? || act.Remove?)
    ensures OrderKept(Do(json, r, act))
  {
  }

  lemma WriterActKeepsOrder(json: Json, r: Relay, act: Act)
    requires OrderKept(r) && Enabled(r, act) && (act.Deliver? || act.Break?)
    requires act.Deliver? && r.kind == Keeper ==> Fits(json, r.sent[r.taken])
    ensures OrderKept(Do(json, r, act))
  {
  }

  lemma ChildActKeepsOrder(json: Json, r: Relay, act: Act)
    requires OrderKept(r) && Enabled(r, act)
    requires act.Write? || act.Close? || act.ChildExit?
    ensures OrderKept(Do(json, r, act))
  {
    assert Do(json, r, act).sent == r.sent;
  }

  lemma PumpActKeepsOrder(json: Json, r: Relay, act: Act)
    requires OrderKept(r) && Enabled(r, act) && (act.Start? || act.Read? || act.Eof?)
    ensures OrderKept(Do(json, r, act))
  {
    assert Do(json, r, act).sent == r.sent;
  }

  lemma SendKeepsOrder(json: Json, r: Relay, s: Stream)
    requires OrderKept(r) && Enabled(r, Send(s))
    ensures OrderKept(Do(json, r, Send(s)))
  {
    if !r.broken {
      OutputKeepsOrder(r, Wrap(s, LaneOf(r, s).pump.chunk));
    }
  }

  lemma ActKeepsOrder(json: Json, r: Relay, act: Act)
    requires OrderKept(r) && Enabled(r, act) && SmallControl(json) && FramesKept(r)
    ensures OrderKept(Do(json, r, act))
  {
    match act
    case Greet(id) => GreetKeepsOrder(json, r, id);
    case Send(s) => SendKeepsOrder(json, r, s);
    case Report => ReportKeepsOrder(json, r);
    case Deliver =>
      WrittenIfOrdered(json, r, r.taken);
      WriterActKeepsOrder(json, r, act);
    case Break(_) => WriterActKeepsOrder(json, r, act);
    case JoinOut => ReaperActKeepsOrder(json, r, act);
    case JoinErr => ReaperActKeepsOrder(json, r, act);
    case Wait => ReaperActKeepsOrder(json, r, act);
    case Remove => ReaperActKeepsOrder(json, r, act);
    case Start => PumpActKeepsOrder(json, r, act);
    case Read(_, _) => PumpActKeepsOrder(json, r, act);
    case Eof(_) => PumpActKeepsOrder(json, r, act);
    case _ => ChildActKeepsOrder(json, r, act);
  }

  lemma SentKeepsFrames(r: Relay, frame: Frame)
    requires FramesKept(r) && (IsOutput(frame) ==> |frame.bytes| <= CHUNK) && (frame.Stderr? ==> r.err.pump != Absent)
    ensures FramesKept(Sent(r, frame))
  {
    var sent := r.sent + [frame];
    assert forall k :: 0 <= k < |r.sent| ==> sent[k] == r.sent[k];
  }

  lemma QuietActKeepsFrames(json: Json, r: Relay, act: Act)
    requires FramesKept(r) && Enabled(r, act) && !act.Greet? && !act.Send? && !act.Report?
    ensures FramesKept(Do(json, r, act))
  {
    assert Do(json, r, act).sent == r.sent;
    assert Do(json, r, act).err.pump == Absent ==> r.err.pump == Absent;
  }

  lemma SendKeepsFrames(json: Json, r: Relay, s: Stream)
    requires FramesKept(r) && LanesKept(r) && Enabled(r, Send(s))
    ensures FramesKept(Do(json, r, Send(s)))
  {
    SentKeepsFrames(r, Wrap(s, LaneOf(r, s).pump.chunk));
  }

  lemma ActKeepsFrames(json: Json, r: Relay, act: Act)
    requires FramesKept(r) && LanesKept(r) && Enabled(r, act)
    ensures FramesKept(Do(json, r, act))
  {
    if act.Greet? {
      SentKeepsFrames(r, SpawnOk(act.id));
    } else if act.Report? {
      SentKeepsFrames(r, Exit(r.reaper.status));
    } else if act.Send? {
      SendKeepsFrames(json, r, act.stream);
    } else {
      QuietActKeepsFrames(json, r, act);
    }
  }

  // ----- What every step keeps: Exit comes after everything -----

  /** Once Exit is in the queue so is every byte the child wrote, and it can write no more. */
  predicate ExitKept(r: Relay) {
    HasExit(r.sent) ==>
      && BytesOf(r.sent, Output) == r.out.written && BytesOf(r.sent, Errors) == r.err.written
      && !r.out.isOpen && !r.err.isOpen
  }

  lemma LaneIsDone(lane: Lane, sent: seq<Byte>)
    requires LaneHolds(lane, sent, false) && (lane.pump == Ended || lane.pump == Absent)
    ensures sent == lane.written && !lane.isOpen
  {
  }

  lemma ReportLeavesBytes(r: Relay, s: Stream)
    requires r.reaper.Removing? || r.reaper.Reporting?
    ensures BytesOf(r.sent + [Exit(r.reaper.status)], s) == BytesOf(r.sent, s)
  {
    BytesOfOneMore(r.sent, Exit(r.reaper.status), s);
  }

  lemma ReportMeansAll(json: Json, r: Relay)
    requires LanesKept(r) && OrderKept(r) && ExitKept(r) && Enabled(r, Report)
    ensures ExitKept(Do(json, r, Report))
  {
    if !r.broken {
      ReportLeavesBytes(r, Output);
      ReportLeavesBytes(r, Errors);
      LaneIsDone(r.out, BytesOf(r.sent, Output));
      LaneIsDone(r.err, BytesOf(r.sent, Errors));
    }
  }

  lemma OtherActKeepsExit(json: Json, r: Relay, act: Act)
    requires OrderKept(r) && ExitKept(r) && Enabled(r, act) && act != Report
    ensures ExitKept(Do(json, r, act))
  {
    var next := Do(json, r, act);
    if HasExit(r.sent) {
      assert r.reaper == Gone && next.sent == r.sent;
    } else {
      assert !HasExit(next.sent);
    }
  }

  lemma ActKeepsExit(json: Json, r: Relay, act: Act)
    requires LanesKept(r) && OrderKept(r) && ExitKept(r) && Enabled(r, act)
    ensures ExitKept(Do(json, r, act))
  {
    if act == Report {
      ReportMeansAll(json, r);
    } else {
      OtherActKeepsExit(json, r, act);
    }
  }

  // ----- What every step keeps: the wire -----

  /** The two structured frames of a session fit a frame; output chunks always do. */
  ghost predicate SmallControl(json: Json) {
    && (forall id: U64 :: Fits(json, SpawnOk(id)))
    && (forall status: ExitStatus :: Fits(json, Exit(status)))
  }

  lemma WrittenIfOrdered(json: Json, r: Relay, k: nat)
    requires SmallControl(json) && Ordered(r.kind, r.sent) && FramesKept(r) && k < |r.sent|
    ensures Fits(json, r.sent[k])
  {
    assert IsOutput(r.sent[k]) ==> |r.sent[k].bytes| <= CHUNK;
  }

  /** The wire carries the frames taken so far, and after a break no more than a cut of what was queued. */
  predicate WireKept(json: Json, r: Relay) {
    && r.taken <= |r.sent| && AllFit(json, r.sent)
    && (!r.broken && r.kind == Keeper ==> r.wire == EncodeAll(json, r.sent[..r.taken]))
    && r.wire <= EncodeAll(json, r.sent)
  }

  lemma TakenIsPrefix(json: Json, frames: seq<Frame>, k: nat)
    requires AllFit(json, frames) && k < |frames|
    ensures EncodeAll(json, frames[..k + 1]) == EncodeAll(json, frames[..k]) + Encode(json, frames[k]).value
    ensures EncodeAll(json, frames[..k + 1]) <= EncodeAll(json, frames)
  {
    assert frames[..k + 1] == frames[..k] + [frames[k]];
    EncodeAllOfMore(json, frames[..k], [frames[k]]);
    assert [frames[k]][1..] == [];
    assert frames == frames[..k + 1] + frames[k + 1..];
    EncodeAllOfMore(json, frames[..k + 1], frames[k + 1..]);
  }

  lemma MoreKeepsWire(json: Json, r: Relay, frame: Frame)
    requires WireKept(json, r) && Fits(json, frame)
    ensures WireKept(json, Sent(r, frame))
  {
    EncodeAllOfMore(json, r.sent, [frame]);
    assert (r.sent + [frame])[..r.taken] == r.sent[..r.taken];
  }

  lemma DeliverKeepsWire(json: Json, r: Relay)
    requires WireKept(json, r) && Enabled(r, Deliver)
    ensures WireKept(json, Do(json, r, Deliver))
  {
    TakenIsPrefix(json, r.sent, r.taken);
  }

  lemma BreakKeepsWire(json: Json, r: Relay, cut: nat)
    requires WireKept(json, r) && Enabled(r, Break(cut))
    ensures WireKept(json, Do(json, r, Break(cut)))
  {
    TakenIsPrefix(json, r.sent, r.taken);
  }

  lemma QuietActKeepsWire(json: Json, r: Relay, act: Act)
    requires WireKept(json, r) && Enabled(r, act)
    requires !act.Greet? && !act.Send? && !act.Report? && !act.Deliver? && !act.Break?
    ensures WireKept(json, Do(json, r, act))
  {
    var next := Do(json, r, act);
    assert next.sent == r.sent && next.taken == r.taken && next.wire == r.wire && next.broken == r.broken;
  }

  lemma ActKeepsWire(json: Json, r: Relay, act: Act)
    requires SmallControl(json) && WireKept(json, r) && LanesKept(r) && Enabled(r, act)
    ensures WireKept(json, Do(json, r, act))
  {
    if act.Greet? {
      MoreKeepsWire(json, r, SpawnOk(act.id));
    } else if act.Send? {
      MoreKeepsWire(json, r, Wrap(act.stream, LaneOf(r, act.stream).pump.chunk));
    } else if act.Report? {
      MoreKeepsWire(json, r, Exit(r.reaper.status));
    } else if act.Deliver? {
      DeliverKeepsWire(json, r);
    } else if act.Break? {
      BreakKeepsWire(json, r, act.cut);
    } else {
      QuietActKeepsWire(json, r, act);
    }
  }

  // ----- Every reachable state -----

  ghost predicate Kept(json: Json, r: Relay) {
    LanesKept(r) && OrderKept(r) && FramesKept(r) && ExitKept(r) && WireKept(json, r)
  }

  lemma SpawnedIsKept(json: Json, kind: Kind, pty: bool)
    ensures Kept(json, Spawned(kind, pty))
  {
  }

  lemma ActKeeps(json: Json, r: Relay, act: Act)
    requires SmallControl(json) && Kept(json, r) && Enabled(r, act)
    ensures Kept(json, Do(json, r, act))
  {
    ActKeepsLane(json, r, act, Output);
    ActKeepsLane(json, r, act, Errors);
    ActKeepsOrder(json, r, act);
    ActKeepsFrames(json, r, act);
    ActKeepsExit(json, r, act);
    ActKeepsWire(json, r, act);
  }

  /** Every interleaving of the child, the pumps, the reaper and the writer keeps all of the above. */
  lemma {:induction false} EveryRunKeeps(json: Json, kind: Kind, pty: bool, acts: seq<Act>)
    requires SmallControl(json)
    ensures Exec(json, Spawned(kind, pty), acts).Some? ==> Kept(json, Exec(json, Spawned(kind, pty), acts).value)
  {
    SpawnedIsKept(json, kind, pty);
    if acts != [] {
      var before := Exec(json, Spawned(kind, pty), acts[..|acts| - 1]);
      EveryRunKeeps(json, kind, pty, acts[..|acts| - 1]);
      if before.Some? && Enabled(before.value, acts[|acts| - 1]) {
        ActKeeps(json, before.value, acts[|acts| - 1]);
      }
    }
  }

  // ----- The bounded queue -----

  lemma ActKeepsBound(json: Json, r: Relay, act: Act)
    requires r.kind == Ssh && r.taken <= |r.sent| <= r.taken + SSH_QUEUE && !r.broken && Enabled(r, act)
    ensures var t := Do(json, r, act);
            t.kind == Ssh && !t.broken && t.taken <= |t.sent| <= t.taken + SSH_QUEUE
  {
  }

  /** Over SSH no more than 64 events ever wait, whatever the interleaving: pumps and reaper wait for room. */
  lemma {:induction false} QueueIsBounded(json: Json, pty: bool, acts: seq<Act>)
    requires Exec(json, Spawned(Ssh, pty), acts).Some?
    ensures var r := Exec(json, Spawned(Ssh, pty), acts).value;
            r.kind == Ssh && !r.broken && r.taken <= |r.sent| <= r.taken + 64
  {
    if acts != [] {
      QueueIsBounded(json, pty, acts[..|acts| - 1]);
      ActKeepsBound(json, Exec(json, Spawned(Ssh, pty), acts[..|acts| - 1]).value, acts[|acts| - 1]);
    }
  }
}
