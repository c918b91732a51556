/**
 * The keeper's wire protocol: one tag byte, a four-byte big-endian length and a payload. Structured frames carry
 * JSON, whose library is a parameter here; output and input carry raw bytes.
 */
module Frames {
  import opened Wrappers
  import opened Sequences

  const MAX_FRAME_LEN: nat := 16 * 1024 * 1024

  type U16 = n: nat | n < 0x1_0000
  type U64 = n: nat | n < 0x1_0000_0000_0000_0000
  type I32 = n: int | -0x8000_0000 <= n < 0x8000_0000

  datatype PtySize = PtySize(rows: U16, cols: U16)

  datatype SpawnRequest = SpawnRequest(
    cmd: string, args: seq<string>, cwd: string, env: map<string, string>, pty: Option<PtySize>)

  datatype SessionSignal = SigInt | SigTerm | SigHup

  datatype ExitStatus = ExitStatus(code: Option<I32>, signal: Option<I32>)

  datatype SessionSummary = SessionSummary(id: U64, command: string, startedUnix: U64)

  datatype QueryAnswer = QueryAnswer(uptimeSecs: U64, sessions: seq<SessionSummary>)

  datatype Frame =
    | Spawn(request: SpawnRequest)
    | SpawnOk(sessionId: U64)
    | SpawnErr(message: string)
    | Stdin(bytes: seq<Byte>)
    | StdinClosed
    | Stdout(bytes: seq<Byte>)
    | Stderr(bytes: seq<Byte>)
    | Resize(size: PtySize)
    | Signal(signal: SessionSignal)
    | Exit(status: ExitStatus)
    | Query
    | QueryResult(answer: QueryAnswer)

  datatype Error = Truncated | TooLong | BadPayload | UnknownTag

  function TagOf(frame: Frame): (tag: Byte)
    ensures 1 <= tag <= 12
  {
    match frame
    case Spawn(_) => 1
    case SpawnOk(_) => 2
    case SpawnErr(_) => 3
    case Stdin(_) => 4
    case StdinClosed => 5
    case Stdout(_) => 6
    case Stderr(_) => 7
    case Resize(_) => 8
    case Signal(_) => 9
    case Exit(_) => 10
    case Query => 11
    case QueryResult(_) => 12
  }

  /** The frames that carry raw bytes. */
  predicate IsRaw(tag: Byte) {
    tag == 4 || tag == 6 || tag == 7
  }

  /** The frames that carry nothing, and whose payload is ignored. */
  predicate IsBare(tag: Byte) {
    tag == 5 || tag == 11
  }

  /** The frames that carry a value in JSON. */
  predicate IsStructured(tag: Byte) {
    1 <= tag <= 12 && !IsRaw(tag) && !IsBare(tag)
  }

  /** The JSON library: what a structured frame is written as, and what a payload means under a tag. */
  datatype Json = Json(write: Frame -> seq<Byte>, read: (Byte, seq<Byte>) -> Option<Frame>) {
    /** Reading what was written gives it back, and reading under a tag gives a frame of that tag. */
    ghost predicate Faithful() {
      && (forall f: Frame :: IsStructured(TagOf(f)) ==> read(TagOf(f), write(f)) == Some(f))
      && (forall tag: Byte, p: seq<Byte> :: read(tag, p).Some? ==> TagOf(read(tag, p).value) == tag)
    }
  }

  function PayloadOf(json: Json, frame: Frame): seq<Byte> {
    match frame
    case Stdin(bytes) => bytes
    case Stdout(bytes) => bytes
    case Stderr(bytes) => bytes
    case StdinClosed => []
    case Query => []
    case _ => json.write(frame)
  }

  // ----- Lengths -----

  function BigEndian(n: nat): (b: seq<Byte>)
    requires n < 0x1_0000_0000
    ensures |b| == 4
  {
    var third := n / 0x100;
    var second := third / 0x100;
    var first := second / 0x100;
    [first as Byte, (second % 0x100) as Byte, (third % 0x100) as Byte, (n % 0x100) as Byte]
  }

  function FromBigEndian(b: seq<Byte>): (n: nat)
    requires |b| == 4
    ensures n < 0x1_0000_0000
  {
    b[0] as nat * 0x100_0000 + b[1] as nat * 0x1_0000 + b[2] as nat * 0x100 + b[3] as nat
  }

  lemma LengthRoundTrips(n: nat)
    requires n < 0x1_0000_0000
    ensures FromBigEndian(BigEndian(n)) == n
  {
    var third := n / 0x100;
    var second := third / 0x100;
    assert n == third * 0x100 + n % 0x100;
    assert third == second * 0x100 + third % 0x100;
    assert second == second / 0x100 * 0x100 + second % 0x100;
  }

  // ----- One frame -----

  /** A frame as bytes on the wire, whatever its length. */
  function Wire(tag: Byte, payload: seq<Byte>): seq<Byte>
    requires |payload| < 0x1_0000_0000
  {
    [tag] + BigEndian(|payload|) + payload
  }

  predicate Fits(json: Json, frame: Frame) {
    |PayloadOf(json, frame)| <= MAX_FRAME_LEN
  }

  /** What writing a frame puts on the wire; a payload over the limit is refused. */
  function Encode(json: Json, frame: Frame): Result<seq<Byte>, Error> {
    if Fits(json, frame) then Ok(Wire(TagOf(frame), PayloadOf(json, frame))) else Err(TooLong)
  }

  /** What a payload means under a tag. */
  function Interpret(json: Json, tag: Byte, payload: seq<Byte>): Result<Frame, Error> {
    if tag == 4 then Ok(Stdin(payload))
    else if tag == 5 then Ok(StdinClosed)
    else if tag == 6 then Ok(Stdout(payload))
    else if tag == 7 then Ok(Stderr(payload))
    else if tag == 11 then Ok(Query)
    else if IsStructured(tag) then
      match json.read(tag, payload)
      case Some(frame) => Ok(frame)
      case None => Err(BadPayload)
    else Err(UnknownTag)
  }

  /** One frame read off the front of `input`, with what is left behind it. */
  function Decode(json: Json, input: seq<Byte>): (r: Result<(Frame, seq<Byte>), Error>)
    ensures r.Ok? ==> |r.value.1| < |input|
  {
    if |input| < 5 then Err(Truncated)
    else
      var len := FromBigEndian(input[1..5]);
      if len > MAX_FRAME_LEN then Err(TooLong)
      else if |input| < 5 + len then Err(Truncated)
      else
        match Interpret(json, input[0], input[5..5 + len])
        case Err(e) => Err(e)
        case Ok(frame) => Ok((frame, input[5 + len..]))
  }

  lemma WireParts(tag: Byte, payload: seq<Byte>, rest: seq<Byte>)
    requires |payload| < 0x1_0000_0000
    ensures var input := Wire(tag, payload) + rest;
            && |input| == 5 + |payload| + |rest| && input[0] == tag
            && FromBigEndian(input[1..5]) == |payload|
            && input[5..5 + |payload|] == payload && input[5 + |payload|..] == rest
  {
    LengthRoundTrips(|payload|);
    var input := Wire(tag, payload) + rest;
    assert input[1..5] == BigEndian(|payload|);
  }

  lemma InterpretPayload(json: Json, frame: Frame)
    requires json.Faithful()
    ensures Interpret(json, TagOf(frame), PayloadOf(json, frame)) == Ok(frame)
  {
    assert IsStructured(TagOf(frame)) ==> json.read(TagOf(frame), json.write(frame)) == Some(frame);
  }

  /** Reading undoes writing: a frame that is written is read back, and what follows it is left alone. */
  lemma FrameRoundTrips(json: Json, frame: Frame, rest: seq<Byte>)
    requires json.Faithful() && Fits(json, frame)
    ensures Decode(json, Encode(json, frame).value + rest) == Ok((frame, rest))
  {
    WireParts(TagOf(frame), PayloadOf(json, frame), rest);
    InterpretPayload(json, frame);
  }

  /** Writing refuses exactly the payloads whose length reading would refuse. */
  lemma WriteRefusesWhatReadRefuses(json: Json, frame: Frame, rest: seq<Byte>)
    requires |PayloadOf(json, frame)| < 0x1_0000_0000
    ensures Encode(json, frame) == Err(TooLong)
       <==> Decode(json, Wire(TagOf(frame), PayloadOf(json, frame)) + rest) == Err(TooLong)
  {
    WireParts(TagOf(frame), PayloadOf(json, frame), rest);
    assert Interpret(json, TagOf(frame), PayloadOf(json, frame)) != Err(TooLong);
  }

  /** The bytes of a frame: its tag, its length with the highest byte first, and behind them the payload. */
  predicate IsLaidOut(wire: seq<Byte>, tag: Byte, payload: seq<Byte>) {
    && |wire| == 5 + |payload| && wire[0] == tag && wire[5..] == payload
    && wire[1] as int * 0x100_0000 + wire[2] as int * 0x1_0000 + wire[3] as int * 0x100 + wire[4] as int == |payload|
  }

  /** Output, input and the bare frames, byte for byte: what any speaker of the protocol has to send and expect. */
  lemma RawFramesOnTheWire(json: Json, bytes: seq<Byte>)
    requires |bytes| <= MAX_FRAME_LEN
    ensures Encode(json, Stdin(bytes)).Ok? && IsLaidOut(Encode(json, Stdin(bytes)).value, 4, bytes)
    ensures Encode(json, Stdout(bytes)).Ok? && IsLaidOut(Encode(json, Stdout(bytes)).value, 6, bytes)
    ensures Encode(json, Stderr(bytes)).Ok? && IsLaidOut(Encode(json, Stderr(bytes)).value, 7, bytes)
    ensures Encode(json, StdinClosed) == Ok([5, 0, 0, 0, 0]) && Encode(json, Query) == Ok([11, 0, 0, 0, 0])
  {
    WireIsLaidOut(4, bytes);
    WireIsLaidOut(6, bytes);
    WireIsLaidOut(7, bytes);
    BareOnTheWire(5);
    BareOnTheWire(11);
  }

  lemma BareOnTheWire(tag: Byte)
    ensures Wire(tag, []) == [tag, 0, 0, 0, 0]
  {
    var zeros := BigEndian(0);
    assert zeros[0] == 0 && zeros[1] == 0 && zeros[2] == 0 && zeros[3] == 0;
    assert Wire(tag, []) == [tag] + zeros + [];
  }

  /** The other frames carry their JSON under tags of their own. */
  lemma StructuredFramesOnTheWire(json: Json, frame: Frame)
    requires Encode(json, frame).Ok? && IsStructured(TagOf(frame))
    ensures exists tag :: IsLaidOut(Encode(json, frame).value, tag, json.write(frame))
              && (tag == 1 <==> frame.Spawn?) && (tag == 2 <==> frame.SpawnOk?) && (tag == 3 <==> frame.SpawnErr?)
              && (tag == 8 <==> frame.Resize?) && (tag == 9 <==> frame.Signal?) && (tag == 10 <==> frame.Exit?)
              && (tag == 12 <==> frame.QueryResult?)
  {
    WireIsLaidOut(TagOf(frame), json.write(frame));
  }

  lemma WireIsLaidOut(tag: Byte, payload: seq<Byte>)
    requires |payload| < 0x1_0000_0000
    ensures IsLaidOut(Wire(tag, payload), tag, payload)
  {
    LengthRoundTrips(|payload|);
  }

  /** Nothing short of a whole frame is a frame: every proper prefix is truncated, not wrong in another way. */
  lemma PrefixIsTruncated(json: Json, frame: Frame, k: nat)
    requires Fits(json, frame) && k < |Encode(json, frame).value|
    ensures Decode(json, Encode(json, frame).value[..k]) == Err(Truncated)
  {
    var payload := PayloadOf(json, frame);
    var wire := Wire(TagOf(frame), payload);
    WireParts(TagOf(frame), payload, []);
    assert wire + [] == wire;
    if k >= 5 {
      assert wire[..k][1..5] == wire[1..5];
    }
  }

  /** A payload is the one the frame read from it would be written with. */
  predicate IsCanonical(json: Json, tag: Byte, payload: seq<Byte>) {
    || IsRaw(tag)
    || (IsBare(tag) && payload == [])
    || (IsStructured(tag) && json.read(tag, payload).Some? && json.write(json.read(tag, payload).value) == payload)
  }

  /**
   * Writing undoes reading exactly for canonical payloads: raw bytes always, but a bare frame with a payload, or
   * JSON spelt otherwise than the library writes it, is read all the same and would be written differently.
   */
  lemma WriteUndoesReadIff(json: Json, tag: Byte, payload: seq<Byte>, rest: seq<Byte>)
    requires json.Faithful() && |payload| <= MAX_FRAME_LEN
    requires Decode(json, Wire(tag, payload) + rest).Ok?
    ensures Decode(json, Wire(tag, payload) + rest).value.1 == rest
    ensures var frame := Decode(json, Wire(tag, payload) + rest).value.0;
            Encode(json, frame) == Ok(Wire(tag, payload)) <==> IsCanonical(json, tag, payload)
  {
    WireParts(tag, payload, rest);
    var frame := Decode(json, Wire(tag, payload) + rest).value.0;
    assert Interpret(json, tag, payload) == Ok(frame) && TagOf(frame) == tag;
    if Encode(json, frame) == Ok(Wire(tag, payload)) {
      WireParts(tag, payload, []);
      WireParts(tag, PayloadOf(json, frame), []);
      assert PayloadOf(json, frame) == payload;
    }
  }

  /** So of the frames without JSON, only a bare one with a payload is read and then written differently. */
  lemma OnlyBareLosesPayload(json: Json, tag: Byte, payload: seq<Byte>, rest: seq<Byte>)
    requires json.Faithful() && |payload| <= MAX_FRAME_LEN && (IsRaw(tag) || IsBare(tag))
    requires Decode(json, Wire(tag, payload) + rest).Ok?
    ensures var frame := Decode(json, Wire(tag, payload) + rest).value.0;
            Encode(json, frame) == Ok(Wire(tag, payload)) <==> IsRaw(tag) || payload == []
  {
    WriteUndoesReadIff(json, tag, payload, rest);
  }

  // ----- Streams of frames -----

  predicate AllFit(json: Json, frames: seq<Frame>) {
    forall i :: 0 <= i < |frames| ==> Fits(json, frames[i])
  }

  function EncodeAll(json: Json, frames: seq<Frame>): seq<Byte>
    requires AllFit(json, frames)
  {
    if frames == [] then [] else Encode(json, frames[0]).value + EncodeAll(json, frames[1..])
  }

  /** Frames read until one cannot be, and why reading stopped. */
  function DecodeAll(json: Json, input: seq<Byte>): (seq<Frame>, Error)
    decreases |input|
  {
    match Decode(json, input)
    case Err(e) => ([], e)
    case Ok((frame, rest)) =>
      var (frames, e) := DecodeAll(json, rest);
      ([frame] + frames, e)
  }

  /** Reading a frame and whatever follows it is reading that frame, then what follows. */
  lemma DecodeAllStep(json: Json, frame: Frame, rest: seq<Byte>)
    requires json.Faithful() && Fits(json, frame)
    ensures DecodeAll(json, Encode(json, frame).value + rest)
         == ([frame] + DecodeAll(json, rest).0, DecodeAll(json, rest).1)
  {
    FrameRoundTrips(json, frame, rest);
  }

  lemma EmptyStreamEnds(json: Json)
    ensures DecodeAll(json, []) == ([], Truncated)
  {
  }

  /** A stream of frames is read back as exactly those frames, and reading stops at its end. */
  lemma {:induction false} StreamRoundTrips(json: Json, frames: seq<Frame>)
    requires json.Faithful() && AllFit(json, frames)
    ensures DecodeAll(json, EncodeAll(json, frames)) == (frames, Truncated)
  {
    if frames == [] {
      EmptyStreamEnds(json);
    } else {
      var frame, more := frames[0], frames[1..];
      StreamRoundTrips(json, more);
      DecodeAllStep(json, frame, EncodeAll(json, more));
      FrontAndRest(frames);
    }
  }

  /** A stream cut anywhere is read back as a prefix of its frames: none is changed, and none appears. */
  lemma {:induction false} CutStreamIsPrefix(json: Json, frames: seq<Frame>, k: nat)
    requires json.Faithful() && AllFit(json, frames) && k <= |EncodeAll(json, frames)|
    ensures DecodeAll(json, EncodeAll(json, frames)[..k]).0 <= frames
    ensures DecodeAll(json, EncodeAll(json, frames)[..k]).1 == Truncated
  {
    if frames != [] {
      var wire, more := Encode(json, frames[0]).value, EncodeAll(json, frames[1..]);
      if k < |wire| {
        assert (wire + more)[..k] == wire[..k];
        PrefixIsTruncated(json, frames[0], k);
      } else {
        var n := k - |wire|;
        assert (wire + more)[..k] == wire + more[..n];
        DecodeAllStep(json, frames[0], more[..n]);
        CutStreamIsPrefix(json, frames[1..], n);
        PrefixOfMore(frames, DecodeAll(json, more[..n]).0);
      }
    }
  }

  lemma PrefixOfMore(frames: seq<Frame>, some: seq<Frame>)
    requires frames != [] && some <= frames[1..]
    ensures [frames[0]] + some <= frames
  {
  }

  /** Different lists of frames are different streams. */
  lemma StreamsAreInjective(json: Json, a: seq<Frame>, b: seq<Frame>)
    requires json.Faithful() && AllFit(json, a) && AllFit(json, b)
    requires EncodeAll(json, a) == EncodeAll(json, b)
    ensures a == b
  {
    StreamRoundTrips(json, a);
    StreamRoundTrips(json, b);
  }

  lemma {:induction false} EncodeAllOfMore(json: Json, frames: seq<Frame>, more: seq<Frame>)
    requires AllFit(json, frames) && AllFit(json, more)
    ensures AllFit(json, frames + more)
    ensures EncodeAll(json, frames + more) == EncodeAll(json, frames) + EncodeAll(json, more)
  {
    if frames == [] {
      assert frames + more == more;
    } else {
      assert (frames + more)[1..] == frames[1..] + more;
      EncodeAllOfMore(json, frames[1..], more);
    }
  }

  // ----- The two halves of a connection -----

  class ReadHalf {
    var rest: seq<Byte>

    constructor (input: seq<Byte>)
      ensures rest == input
    {
      rest := input;
    }

    /** Exactly `n` bytes, or the end of the stream. */
    method ReadExact(n: nat) returns (r: Option<seq<Byte>>)
      modifies this
      ensures n <= |old(rest)| ==> r == Some(old(rest)[..n]) && rest == old(rest)[n..]
      ensures n > |old(rest)| ==> r == None && rest == []
    {
      if n > |rest| {
        rest := [];
        return None;
      }
      r := Some(rest[..n]);
      rest := rest[n..];
    }

    method ReadFrame(json: Json) returns (r: Result<Frame, Error>)
      modifies this
      ensures match Decode(json, old(rest))
              case Ok((frame, left)) => r == Ok(frame) && rest == left
              case Err(e) => r == Err(e)
    {
      ghost var input := rest;
      var tag := ReadExact(1);
      if tag.None? {
        return Err(Truncated);
      }
      var lenBytes := ReadExact(4);
      if lenBytes.None? {
        return Err(Truncated);
      }
      assert lenBytes.value == input[1..5];
      var len := FromBigEndian(lenBytes.value);
      if len > MAX_FRAME_LEN {
        return Err(TooLong);
      }
      assert rest == input[5..];
      var payload := ReadExact(len);
      if payload.None? {
        return Err(Truncated);
      }
      assert payload.value == input[5..5 + len] && rest == input[5 + len..];
      r := Interpret(json, tag.value[0], payload.value);
    }
  }

  class WriteHalf {
    var sent: seq<Byte>

    constructor ()
      ensures sent == []
    {
      sent := [];
    }

    method WriteAll(bytes: seq<Byte>)
      modifies this
      ensures sent == old(sent) + bytes
    {
      sent := sent + bytes;
    }

    method WriteRaw(tag: Byte, payload: seq<Byte>) returns (r: Result<(), Error>)
      modifies this
      ensures r == if |payload| <= MAX_FRAME_LEN then Ok(()) else Err(TooLong)
      ensures sent == if |payload| <= MAX_FRAME_LEN then old(sent) + Wire(tag, payload) else old(sent)
    {
      if |payload| > MAX_FRAME_LEN {
        return Err(TooLong);
      }
      WriteAll([tag]);
      WriteAll(BigEndian(|payload|));
      WriteAll(payload);
      r := Ok(());
    }

    method WriteFrame(json: Json, frame: Frame) returns (r: Result<(), Error>)
      modifies this
      ensures match Encode(json, frame)
              case Ok(wire) => r == Ok(()) && sent == old(sent) + wire
              case Err(e) => r == Err(e) && sent == old(sent)
    {
      r := WriteRaw(TagOf(frame), PayloadOf(json, frame));
    }
  }
}
