/** The client's side of a session, and what it gets end to end: over the keeper's socket and over SSH. */
module Client {
  import opened Wrappers
  import opened Sequences
  import opened Frames
  import opened Relays

  /** What a client wrote to its own streams, and the code it exits with. */
  datatype Outcome = Outcome(out: seq<Byte>, err: seq<Byte>, code: int)

  datatype ExecError = Protocol | SpawnFailed(message: string)

  function ExitCodeFrom(status: ExitStatus): int {
    if status.code.Some? then status.code.value
    else if status.signal.Some? then 128 + status.signal.value
    else 1
  }

  /** The child's own exit code where it has one, 128 and its signal where it was killed, and otherwise 1. */
  predicate IsCodeOf(status: ExitStatus, code: int) {
    && (status.code.Some? ==> code == status.code.value)
    && (status.code.None? && status.signal.Some? ==> code == 128 + status.signal.value)
    && (status.code.None? && status.signal.None? ==> code == 1)
  }

  /** What the receive loop makes of the frames it can read; without an Exit the connection dropped, and it exits 1. */
  function Streamed(frames: seq<Frame>): Outcome {
    if frames == [] then Outcome([], [], 1)
    else
      match frames[0]
      case Exit(status) => Outcome([], [], ExitCodeFrom(status))
      case frame =>
        var rest := Streamed(frames[1..]);
        Outcome(BytesIn(frame, Output) + rest.out, BytesIn(frame, Errors) + rest.err, rest.code)
  }

  /** A session from the client's first read: it must be greeted before it streams. */
  function Received(frames: seq<Frame>): Result<Outcome, ExecError> {
    if frames == [] then Err(Protocol)
    else
      match frames[0]
      case SpawnOk(_) => Ok(Streamed(frames[1..]))
      case SpawnErr(message) => Err(SpawnFailed(message))
      case _ => Err(Protocol)
  }

  // ----- The loops -----

  method StreamSession(stream: ReadHalf, json: Json) returns (r: Outcome)
    modifies stream
    ensures r == Streamed(DecodeAll(json, old(stream.rest)).0)
  {
    ghost var all := Streamed(DecodeAll(json, stream.rest).0);
    LoopStarts(json, stream.rest);
    var out, err: seq<Byte> := [], [];
    while true
      invariant all == LoopFrom(json, out, err, stream.rest)
      decreases |stream.rest|
    {
      ghost var before := stream.rest;
      var next := stream.ReadFrame(json);
      LoopTurn(json, before, out, err);
      match next {
        case Err(_) => return Outcome(out, err, 1);
        case Ok(Exit(status)) => return Outcome(out, err, ExitCodeFrom(status));
        case Ok(Stdout(bytes)) => out := out + bytes;
        case Ok(Stderr(bytes)) => err := err + bytes;
        case Ok(_) =>
      }
    }
  }

  method RunSession(stream: ReadHalf, json: Json) returns (r: Result<Outcome, ExecError>)
    modifies stream
    ensures r == Received(DecodeAll(json, old(stream.rest)).0)
  {
    var first := stream.ReadFrame(json);
    match first {
      case Ok(SpawnOk(_)) =>
        var outcome := StreamSession(stream, json);
        r := Ok(outcome);
      case Ok(SpawnErr(message)) => r := Err(SpawnFailed(message));
      case Ok(_) => r := Err(Protocol);
      case Err(_) => r := Err(Protocol);
    }
  }

  /** What has been written so far, with the rest of the session behind it. */
  ghost function Behind(out: seq<Byte>, err: seq<Byte>, rest: Outcome): Outcome {
    Outcome(out + rest.out, err + rest.err, rest.code)
  }

  lemma StreamedUnfolds(frame: Frame, frames: seq<Frame>)
    requires !frame.Exit?
    ensures Streamed([frame] + frames) == Behind(BytesIn(frame, Output), BytesIn(frame, Errors), Streamed(frames))
  {
    DropFront([frame], frames);
  }

  lemma BehindTwice(out: seq<Byte>, err: seq<Byte>, moreOut: seq<Byte>, moreErr: seq<Byte>, rest: Outcome)
    ensures Behind(out, err, Behind(moreOut, moreErr, rest)) == Behind(out + moreOut, err + moreErr, rest)
  {
    Regroup(out, moreOut, rest.out);
    Regroup(err, moreErr, rest.err);
  }

  /** What the receive loop comes to from `input` on. */
  ghost function LoopFrom(json: Json, out: seq<Byte>, err: seq<Byte>, input: seq<Byte>): Outcome {
    Behind(out, err, Streamed(DecodeAll(json, input).0))
  }

  lemma LoopStarts(json: Json, input: seq<Byte>)
    ensures LoopFrom(json, [], [], input) == Streamed(DecodeAll(json, input).0)
  {
    var all := Streamed(DecodeAll(json, input).0);
    assert [] + all.out == all.out && [] + all.err == all.err;
  }

  /** One turn of the receive loop: it ends with an error or an Exit, and otherwise writes what the frame carries. */
  lemma LoopTurn(json: Json, input: seq<Byte>, out: seq<Byte>, err: seq<Byte>)
    ensures Decode(json, input).Err? ==> LoopFrom(json, out, err, input) == Outcome(out, err, 1)
    ensures Decode(json, input).Ok? ==>
              var (frame, rest) := Decode(json, input).value;
              LoopFrom(json, out, err, input)
              == if frame.Exit? then Outcome(out, err, ExitCodeFrom(frame.status))
                 else if frame.Stdout? then LoopFrom(json, out + frame.bytes, err, rest)
                 else if frame.Stderr? then LoopFrom(json, out, err + frame.bytes, rest)
                 else LoopFrom(json, out, err, rest)
  {
    if Decode(json, input).Ok? {
      var (frame, rest) := Decode(json, input).value;
      var frames := DecodeAll(json, rest).0;
      if frame.Exit? {
        assert Streamed([frame] + frames) == Outcome([], [], ExitCodeFrom(frame.status));
      } else {
        StreamedUnfolds(frame, frames);
        BehindTwice(out, err, BytesIn(frame, Output), BytesIn(frame, Errors), Streamed(frames));
        assert out + [] == out && err + [] == err;
      }
    }
  }

  // ----- What the frames of a session come to -----

  lemma {:induction false} BytesOfConcat(a: seq<Frame>, b: seq<Frame>, s: Stream)
    ensures BytesOf(a + b, s) == BytesOf(a, s) + BytesOf(b, s)
  {
    if b == [] {
      assert a + b == a && BytesOf(a, s) + [] == BytesOf(a, s);
    } else {
      var init, last := b[..|b| - 1], b[|b| - 1];
      BytesOfConcat(a, init, s);
      BytesOfOneMore(a + init, last, s);
      assert b == init + [last];
      Regroup(a, init, [last]);
      Regroup(BytesOf(a, s), BytesOf(init, s), BytesIn(last, s));
    }
  }

  lemma BytesOfOne(frame: Frame, s: Stream)
    ensures BytesOf([frame], s) == BytesIn(frame, s)
  {
    NothingInFront([frame]);
    NothingInFront(BytesIn(frame, s));
    BytesOfOneMore([], frame, s);
  }

  lemma BytesOfFront(frames: seq<Frame>, s: Stream)
    requires frames != []
    ensures BytesOf(frames, s) == BytesIn(frames[0], s) + BytesOf(frames[1..], s)
  {
    FrontAndRest(frames);
    BytesOfOne(frames[0], s);
    BytesOfConcat([frames[0]], frames[1..], s);
  }

  /** Frames of one session with the greeting taken off: output, and perhaps one Exit at the end. */
  predicate IsBody(frames: seq<Frame>) {
    forall k :: 0 <= k < |frames| ==> IsOutput(frames[k]) || (k == |frames| - 1 && frames[k].Exit?)
  }

  /** A body is streamed as its bytes, stream by stream, and the code of its Exit, or 1 when it has none. */
  lemma {:induction false} BodyIsStreamed(frames: seq<Frame>)
    requires IsBody(frames)
    ensures Streamed(frames).out == BytesOf(frames, Output)
    ensures Streamed(frames).err == BytesOf(frames, Errors)
    ensures if frames != [] && frames[|frames| - 1].Exit? then
              IsCodeOf(frames[|frames| - 1].status, Streamed(frames).code)
            else Streamed(frames).code == 1
  {
    if frames != [] {
      BytesOfFront(frames, Output);
      BytesOfFront(frames, Errors);
      if frames[0].Exit? {
        assert frames[1..] == [];
      } else {
        assert forall k :: 0 <= k < |frames| - 1 ==> frames[1..][k] == frames[k + 1];
        BodyIsStreamed(frames[1..]);
      }
    }
  }

  /**
   * Whatever frames a client reads, it writes what comes before the first Exit, stream by stream, ignores everything
   * else, and exits with the code of that Exit; when none comes, it exits 1.
   */
  lemma {:induction false} FirstExitDecides(frames: seq<Frame>, k: nat)
    requires k <= |frames| && (forall j :: 0 <= j < k ==> !frames[j].Exit?) && (k < |frames| ==> frames[k].Exit?)
    ensures Streamed(frames).out == BytesOf(frames[..k], Output)
    ensures Streamed(frames).err == BytesOf(frames[..k], Errors)
    ensures if k < |frames| then IsCodeOf(frames[k].status, Streamed(frames).code) else Streamed(frames).code == 1
  {
    if k == 0 {
      assert frames[..0] == [];
    } else {
      var rest := frames[1..];
      assert forall j :: 0 <= j < |rest| ==> rest[j] == frames[j + 1];
      FirstExitDecides(rest, k - 1);
      FirstIsStreamed(frames, k);
    }
  }

  /** The first of some frames goes before what the others come to. */
  lemma FirstIsStreamed(frames: seq<Frame>, k: nat)
    requires 0 < k <= |frames| && !frames[0].Exit?
    ensures Streamed(frames) == Behind(BytesIn(frames[0], Output), BytesIn(frames[0], Errors), Streamed(frames[1..]))
    ensures BytesOf(frames[..k], Output) == BytesIn(frames[0], Output) + BytesOf(frames[1..][..k - 1], Output)
    ensures BytesOf(frames[..k], Errors) == BytesIn(frames[0], Errors) + BytesOf(frames[1..][..k - 1], Errors)
  {
    assert frames[..k][1..] == frames[1..][..k - 1];
    BytesOfFront(frames[..k], Output);
    BytesOfFront(frames[..k], Errors);
    FrontAndRest(frames);
    StreamedUnfolds(frames[0], frames[1..]);
  }

  /** A session that could not be spawned is reported with the keeper's message, whatever follows on the stream. */
  lemma SpawnErrorIsReported(json: Json, message: string, more: seq<Byte>)
    requires json.Faithful() && Fits(json, SpawnErr(message))
    ensures Received(DecodeAll(json, Encode(json, SpawnErr(message)).value + more).0) == Err(SpawnFailed(message))
  {
    DecodeAllStep(json, SpawnErr(message), more);
  }

  /** And so is a stream that ends or breaks before its first frame, as a protocol error. */
  lemma NoGreetingIsAnError(json: Json, input: seq<Byte>)
    requires Decode(json, input).Ok? ==>
               !Decode(json, input).value.0.SpawnOk? && !Decode(json, input).value.0.SpawnErr?
    ensures Received(DecodeAll(json, input).0) == Err(Protocol)
  {
  }

  lemma OrderedIsBody(frames: seq<Frame>, k: nat)
    requires Ordered(Keeper, frames) && 0 < k <= |frames|
    ensures frames[0].SpawnOk? && IsBody(frames[1..k])
  {
  }

  lemma {:induction false} BytesOfPrefix(frames: seq<Frame>, k: nat, s: Stream)
    requires k <= |frames|
    ensures BytesOf(frames[..k], s) <= BytesOf(frames, s)
    decreases |frames| - k
  {
    if k < |frames| {
      BytesOfPrefix(frames, k + 1, s);
      assert frames[..k + 1][..k] == frames[..k];
    } else {
      assert frames[..k] == frames;
    }
  }

  /** What a client makes of the first `k` frames of a session. */
  lemma PrefixIsReceived(frames: seq<Frame>, k: nat)
    requires Ordered(Keeper, frames) && 0 < k <= |frames|
    ensures Received(frames[..k]) ==
            Ok(Outcome(BytesOf(frames[..k], Output), BytesOf(frames[..k], Errors),
                       if frames[k - 1].Exit? then ExitCodeFrom(frames[k - 1].status) else 1))
  {
    OrderedIsBody(frames, k);
    var some, body := frames[..k], frames[1..k];
    assert some[1..] == body && some[0] == frames[0];
    BodyIsStreamed(body);
    GreetingCarriesNothing(some, Output);
    GreetingCarriesNothing(some, Errors);
    assert body != [] ==> body[|body| - 1] == frames[k - 1];
  }

  lemma GreetingCarriesNothing(frames: seq<Frame>, s: Stream)
    requires frames != [] && frames[0].SpawnOk?
    ensures BytesOf(frames, s) == BytesOf(frames[1..], s)
  {
    BytesOfFront(frames, s);
  }

  // ----- End to end, over the keeper's socket -----

  /** The session has been relayed whole: it was reported, the writer is done, and the client stayed. */
  predicate RelayedWhole(r: Relay) {
    r.reaper == Gone && r.taken == |r.sent| && !r.broken
  }

  lemma WholeRelayIsReceived(json: Json, r: Relay)
    requires json.Faithful() && Kept(json, r) && r.kind == Keeper && RelayedWhole(r)
    ensures r.child.Reaped?
    ensures Received(DecodeAll(json, r.wire).0)
         == Ok(Outcome(r.out.written, r.err.written, ExitCodeFrom(r.child.status)))
  {
    WholeWire(json, r);
    ExitClosesOrder(r);
    PrefixIsReceived(r.sent, |r.sent|);
    assert r.sent[..|r.sent|] == r.sent;
  }

  lemma WholeWire(json: Json, r: Relay)
    requires json.Faithful() && WireKept(json, r) && r.kind == Keeper && RelayedWhole(r)
    ensures DecodeAll(json, r.wire).0 == r.sent
  {
    assert r.sent[..r.taken] == r.sent;
    StreamRoundTrips(json, r.sent);
  }

  lemma ExitClosesOrder(r: Relay)
    requires OrderKept(r) && RelayedWhole(r)
    ensures HasExit(r.sent) && r.sent != [] && r.sent[|r.sent| - 1] == Exit(r.child.status) && r.child.Reaped?
  {
  }

  /** A client that reads this wire is given exactly these bytes, and exits with the code of this status. */
  predicate IsServed(json: Json, wire: seq<Byte>, out: seq<Byte>, err: seq<Byte>, status: ExitStatus) {
    var got := Received(DecodeAll(json, wire).0);
    got.Ok? && got.value.out == out && got.value.err == err && IsCodeOf(status, got.value.code)
  }

  /**
   * End to end: whatever the interleaving and however the child's output was split into reads, a client that
   * stays gets exactly the child's bytes, in order on each stream, and exits with the code of the child's status.
   */
  lemma EndToEnd(json: Json, pty: bool, acts: seq<Act>)
    requires json.Faithful() && SmallControl(json)
    requires Exec(json, Spawned(Keeper, pty), acts).Some?
    requires RelayedWhole(Exec(json, Spawned(Keeper, pty), acts).value)
    ensures var r := Exec(json, Spawned(Keeper, pty), acts).value;
            && r.child.Reaped?
            && exists code ::
                 && Received(DecodeAll(json, r.wire).0) == Ok(Outcome(r.out.written, r.err.written, code))
                 && (forall c: I32 :: r.child.status.code == Some(c) ==> code == c)
                 && (forall k: I32 :: r.child.status.code == None && r.child.status.signal == Some(k) ==>
                       code == 128 + k)
                 && (r.child.status.code == None && r.child.status.signal == None ==> code == 1)
  {
    KindIsKept(json, Keeper, pty, acts);
    EveryRunKeeps(json, Keeper, pty, acts);
    WholeRelayIsReceived(json, Exec(json, Spawned(Keeper, pty), acts).value);
  }

  lemma {:induction false} KindIsKept(json: Json, kind: Kind, pty: bool, acts: seq<Act>)
    ensures Exec(json, Spawned(kind, pty), acts).Some? ==> Exec(json, Spawned(kind, pty), acts).value.kind == kind
  {
    if acts != [] {
      var before := Exec(json, Spawned(kind, pty), acts[..|acts| - 1]);
      KindIsKept(json, kind, pty, acts[..|acts| - 1]);
      if before.Some? && Enabled(before.value, acts[|acts| - 1]) {
        ActKeepsKind(json, before.value, acts[|acts| - 1]);
      }
    }
  }

  lemma ActKeepsKind(json: Json, r: Relay, act: Act)
    requires Enabled(r, act)
    ensures Do(json, r, act).kind == r.kind
  {
  }

  /** The code is the child's own: an outcome with the whole output and the code of its status. */
  predicate IsWhole(r: Relay, o: Outcome) {
    && r.child.Reaped?
    && o.out == r.out.written && o.err == r.err.written && IsCodeOf(r.child.status, o.code)
  }

  /** A client cut off: what it wrote is a prefix of what the child wrote, and it exits 1. */
  predicate IsCutOff(r: Relay, o: Outcome) {
    o.out <= r.out.written && o.err <= r.err.written && o.code == 1
  }

  /**
   * At any moment, connected or cut off at any byte, a client has been given nothing but prefixes of what the
   * child wrote; and it reports a status of the child only together with the child's whole output.
   */
  lemma AnyCutIsHonest(json: Json, pty: bool, acts: seq<Act>, k: nat)
    requires json.Faithful() && SmallControl(json)
    requires Exec(json, Spawned(Keeper, pty), acts).Some?
    requires k <= |Exec(json, Spawned(Keeper, pty), acts).value.wire|
    ensures var r := Exec(json, Spawned(Keeper, pty), acts).value;
            var got := Received(DecodeAll(json, r.wire[..k]).0);
            got == Err(Protocol) || (got.Ok? && (IsWhole(r, got.value) || IsCutOff(r, got.value)))
  {
    KindIsKept(json, Keeper, pty, acts);
    EveryRunKeeps(json, Keeper, pty, acts);
    var r := Exec(json, Spawned(Keeper, pty), acts).value;
    assert r.wire[..k] == EncodeAll(json, r.sent)[..k];
    CutStreamIsPrefix(json, r.sent, k);
    PrefixIsHonest(json, r, DecodeAll(json, r.wire[..k]).0);
  }

  lemma PrefixIsHonest(json: Json, r: Relay, got: seq<Frame>)
    requires Kept(json, r) && r.kind == Keeper && got <= r.sent
    ensures got == [] ==> Received(got) == Err(Protocol)
    ensures got != [] ==> Received(got).Ok? && (IsWhole(r, Received(got).value) || IsCutOff(r, Received(got).value))
  {
    var n := |got|;
    if n > 0 {
      assert got == r.sent[..n];
      PrefixIsReceived(r.sent, n);
      if r.sent[n - 1].Exit? {
        ExitIsLast(r, n - 1);
        assert r.sent[..n] == r.sent;
      } else {
        PrefixOfWritten(r, n, Output);
        PrefixOfWritten(r, n, Errors);
      }
    }
  }

  lemma PrefixOfWritten(r: Relay, n: nat, s: Stream)
    requires LaneKept(r, s) && n <= |r.sent|
    ensures BytesOf(r.sent[..n], s) <= LaneOf(r, s).written
  {
    BytesOfPrefix(r.sent, n, s);
  }

  lemma ExitIsLast(r: Relay, k: nat)
    requires OrderKept(r) && k < |r.sent| && r.sent[k].Exit?
    ensures k == |r.sent| - 1 && HasExit(r.sent) && r.child.Reaped? && r.sent[k] == Exit(r.child.status)
  {
  }

  // ----- Over SSH -----

  /** What the SSH client is sent: data, extended data of type 1, and exit statuses. */
  datatype Channel = Channel(data: seq<Byte>, extended: seq<Byte>, statuses: seq<nat>)

  /** The exit code, cast from 32 bits signed to 32 bits unsigned. */
  function SshCode(status: ExitStatus): nat {
    ExitCodeFrom(status) % 0x1_0000_0000
  }

  function Relayed(events: seq<Frame>): Channel {
    if events == [] then Channel([], [], [])
    else
      var before, last := Relayed(events[..|events| - 1]), events[|events| - 1];
      match last
      case Stdout(bytes) => before.(data := before.data + bytes)
      case Stderr(bytes) => before.(extended := before.extended + bytes)
      case Exit(status) => before.(statuses := before.statuses + [SshCode(status)])
      case _ => before
  }

  method RelayEvents(events: seq<Frame>) returns (channel: Channel)
    ensures channel == Relayed(events)
  {
    var data, extended: seq<Byte>, statuses: seq<nat> := [], [], [];
    for i := 0 to |events|
      invariant Channel(data, extended, statuses) == Relayed(events[..i])
    {
      assert events[..i + 1][..i] == events[..i];
      match events[i] {
        case Stdout(bytes) => data := data + bytes;
        case Stderr(bytes) => extended := extended + bytes;
        case Exit(status) => statuses := statuses + [SshCode(status)];
        case _ =>
      }
    }
    assert events[..|events|] == events;
    channel := Channel(data, extended, statuses);
  }

  lemma {:induction false} RelayedBytes(events: seq<Frame>)
    ensures Relayed(events).data == BytesOf(events, Output)
    ensures Relayed(events).extended == BytesOf(events, Errors)
  {
    if events != [] {
      RelayedBytes(events[..|events| - 1]);
    }
  }

  /**
   * Over SSH the client is sent the same bytes in the same order on each stream, and one exit status: the code
   * the keeper's client would exit with, as an unsigned number.
   */
  lemma SshEndToEnd(json: Json, pty: bool, acts: seq<Act>)
    requires SmallControl(json)
    requires Exec(json, Spawned(Ssh, pty), acts).Some?
    requires RelayedWhole(Exec(json, Spawned(Ssh, pty), acts).value)
    ensures var r := Exec(json, Spawned(Ssh, pty), acts).value;
            && r.child.Reaped?
            && exists code: nat ::
                 && Relayed(r.sent[..r.taken]) == Channel(r.out.written, r.err.written, [code])
                 && (forall c: I32 :: r.child.status.code == Some(c) ==> code == c % 0x1_0000_0000)
                 && (forall k: I32 :: r.child.status.code == None && r.child.status.signal == Some(k) ==>
                       code == (128 + k) % 0x1_0000_0000)
                 && (r.child.status.code == None && r.child.status.signal == None ==> code == 1)
  {
    EveryRunKeeps(json, Ssh, pty, acts);
    var r := Exec(json, Spawned(Ssh, pty), acts).value;
    assert r.sent[..r.taken] == r.sent;
    OneStatus(r);
    var code := Relayed(r.sent).statuses[0];
    assert Relayed(r.sent) == Channel(r.out.written, r.err.written, [code]);
  }

  /** An SSH client is sent these bytes on each stream and one status: the code of this one in 32 bits unsigned. */
  predicate IsServedBySsh(events: seq<Frame>, out: seq<Byte>, err: seq<Byte>, status: ExitStatus) {
    var sent := Relayed(events);
    && sent.data == out && sent.extended == err && |sent.statuses| == 1
    && (status.code.Some? ==> sent.statuses[0] == status.code.value % 0x1_0000_0000)
    && (status.code.None? && status.signal.Some? ==>
          sent.statuses[0] == (128 + status.signal.value) % 0x1_0000_0000)
    && (status.code.None? && status.signal.None? ==> sent.statuses[0] == 1)
  }

  lemma {:induction false} NoStatusYet(events: seq<Frame>)
    requires forall k :: 0 <= k < |events| ==> !events[k].Exit?
    ensures Relayed(events).statuses == []
  {
    if events != [] {
      NoStatusYet(events[..|events| - 1]);
    }
  }

  lemma OneStatus(r: Relay)
    requires OrderKept(r) && ExitKept(r) && RelayedWhole(r)
    ensures r.child.Reaped?
    ensures IsServedBySsh(r.sent, r.out.written, r.err.written, r.child.status)
  {
    ExitClosesOrder(r);
    RelayedBytes(r.sent);
    var init := r.sent[..|r.sent| - 1];
    forall k | 0 <= k < |init| ensures !init[k].Exit? {
      assert init[k] == r.sent[k];
    }
    NoStatusYet(init);
    OneMoreStatus(init, r.child.status);
    assert r.sent == init + [Exit(r.child.status)];
  }

  lemma OneMoreStatus(init: seq<Frame>, status: ExitStatus)
    ensures Relayed(init + [Exit(status)]).statuses == Relayed(init).statuses + [SshCode(status)]
  {
    assert (init + [Exit(status)])[..|init|] == init;
  }
}
