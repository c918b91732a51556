/**
 * The stream wrapper that holds an end of file back until the channel's exit status has been sent, polled from
 * outside. What the wrapped stream and the send do when polled is any schedule at all.
 */
module EofGate {
  import opened Wrappers
  import opened Sequences

  /** What the wrapped stream will say: not yet, an error, or some bytes; no bytes is its end of file. */
  datatype Outcome = NotYet | Failure | Bytes(bytes: seq<Byte>)

  /** What one poll answers; `Ready` carries the bytes put into the caller's buffer. */
  datatype Answer = Pending | Failed | Ready(bytes: seq<Byte>)

  /** `Armed` and `Sending` say how many more polls of the exit-status send will answer that it is not done. */
  datatype EofState = Armed(delay: nat) | Sending(left: nat) | Done

  datatype Gate = Gate(inner: seq<Outcome>, onEof: EofState)

  datatype Event = Polled(inner: Answer) | Started | Completed | Answered(answer: Answer)

  /** A poll of the wrapped stream with room for `room` bytes: what it answers, and what it will say afterwards. */
  function PollInner(inner: seq<Outcome>, room: nat): (Answer, seq<Outcome>) {
    if inner == [] then (Pending, [])
    else
      match inner[0]
      case NotYet => (Pending, inner[1..])
      case Failure => (Failed, inner[1..])
      case Bytes(b) =>
        if |b| <= room then (Ready(b), inner[1..])
        else (Ready(b[..room]), inner[0 := Bytes(b[room..])])
  }

  /** One poll of the wrapper: its next state, its answer, and what happened on the way. */
  function PollOnce(gate: Gate, room: nat): (Gate, Answer, seq<Event>) {
    if gate.onEof.Sending? then
      if gate.onEof.left == 0 then (gate.(onEof := Done), Ready([]), [Completed, Answered(Ready([]))])
      else (gate.(onEof := Sending(gate.onEof.left - 1)), Pending, [Answered(Pending)])
    else
      var (answer, rest) := PollInner(gate.inner, room);
      if answer == Ready([]) && gate.onEof.Armed? then
        if gate.onEof.delay == 0
        then (Gate(rest, Done), Ready([]), [Polled(answer), Started, Completed, Answered(Ready([]))])
        else (Gate(rest, Sending(gate.onEof.delay - 1)), Pending, [Polled(answer), Started, Answered(Pending)])
      else (gate.(inner := rest), answer, [Polled(answer), Answered(answer)])
  }

  function BytesOf(answer: Answer): seq<Byte> {
    if answer.Ready? then answer.bytes else []
  }

  // ----- The code -----

  /** The caller's buffer: poll_read only ever appends to what is filled. */
  class ReadBuf {
    const capacity: nat
    var filled: seq<Byte>

    ghost predicate Valid()
      reads this
    {
      |filled| <= capacity
    }

    constructor (capacity: nat)
      ensures Valid() && filled == [] && this.capacity == capacity
    {
      this.capacity := capacity;
      filled := [];
    }
  }

  class Stream {
    var script: seq<Outcome>

    constructor (script: seq<Outcome>)
      ensures this.script == script
    {
      this.script := script;
    }

    method PollRead(buf: ReadBuf) returns (answer: Answer)
      requires buf.Valid()
      modifies this, buf
      ensures buf.Valid()
      ensures (answer, script) == PollInner(old(script), buf.capacity - |old(buf.filled)|)
      ensures buf.filled == old(buf.filled) + BytesOf(answer)
    {
      var (polled, rest) := PollInner(script, buf.capacity - |buf.filled|);
      answer := polled;
      script := rest;
      if answer.Ready? {
        buf.filled := buf.filled + answer.bytes;
      }
    }
  }

  class NotifyOnEof {
    const inner: Stream
    var onEof: EofState

    ghost function State(): Gate
      reads this, inner
    {
      Gate(inner.script, onEof)
    }

    constructor (inner: Stream, delay: nat)
      ensures this.inner == inner && onEof == Armed(delay)
    {
      this.inner := inner;
      onEof := Armed(delay);
    }

    /** Polls the send: done, or one poll closer to it. */
    method PollSend(left: nat) returns (done: bool)
      modifies this`onEof
      ensures done == (left == 0)
      ensures onEof == if done then old(onEof) else Sending(left - 1)
    {
      done := left == 0;
      if !done {
        onEof := Sending(left - 1);
      }
    }

    method PollRead(buf: ReadBuf) returns (answer: Answer)
      requires buf.Valid()
      modifies this, inner, buf
      ensures buf.Valid()
      ensures (State(), answer) ==
              (PollOnce(old(State()), buf.capacity - |old(buf.filled)|).0,
               PollOnce(old(State()), buf.capacity - |old(buf.filled)|).1)
      ensures buf.filled == old(buf.filled) + BytesOf(answer)
    {
      if onEof.Sending? {
        var done := PollSend(onEof.left);
        if done {
          onEof := Done;
        }
        return if done then Ready([]) else Pending;
      }
      var before := |buf.filled|;
      answer := inner.PollRead(buf);
      if answer.Ready? && |buf.filled| == before && onEof.Armed? {
        var delay := onEof.delay;
        onEof := Done;
        var done := PollSend(delay);
        answer := if done then Ready([]) else Pending;
      }
    }
  }

  // ----- Whole runs -----

  /** A run of polls, each with room for some number of bytes: where it ends, and everything that happened. */
  function Run(gate: Gate, rooms: seq<nat>): (Gate, seq<Event>)
    decreases |rooms|
  {
    if rooms == [] then (gate, [])
    else
      var (next, _, events) := PollOnce(gate, rooms[0]);
      var (last, more) := Run(next, rooms[1..]);
      (last, events + more)
  }

  /** Polls of the wrapped stream, each answered as that stream answered it. */
  predicate IsEchoed(trace: seq<Event>) {
    trace == []
    || (|trace| >= 2 && trace[0].Polled? && trace[1] == Answered(trace[0].inner) && IsEchoed(trace[2..]))
  }

  lemma {:induction false} EchoesFollow(a: seq<Event>, b: seq<Event>)
    requires IsEchoed(a) && IsEchoed(b)
    ensures IsEchoed(a + b)
  {
    if a == [] {
      assert a + b == b;
    } else {
      EchoesFollow(a[2..], b);
      assert (a + b)[2..] == a[2..] + b;
    }
  }

  lemma OneEcho(answer: Answer)
    ensures IsEchoed([Polled(answer), Answered(answer)])
  {
    assert [Polled(answer), Answered(answer)][2..] == [];
  }

  /** Before the end of file the wrapper only passes on what the wrapped stream answers. */
  predicate IsBefore(trace: seq<Event>) {
    IsEchoed(trace) && Answered(Ready([])) !in trace
  }

  /** While the exit status is being sent, nothing happens but that polls are told to wait. */
  predicate IsWaiting(trace: seq<Event>) {
    forall e <- trace :: e == Answered(Pending)
  }

  /** `before`, the end of file, the start of the send, and waiting. */
  predicate IsDuring(trace: seq<Event>, before: seq<Event>, waiting: seq<Event>) {
    IsBefore(before) && IsWaiting(waiting) && trace == before + [Polled(Ready([])), Started] + waiting
  }

  /** The three shapes a trace can have, one for each state. */
  ghost predicate HasShape(trace: seq<Event>, state: EofState) {
    match state
    case Armed(_) => IsBefore(trace)
    case Sending(_) => exists before, waiting :: IsDuring(trace, before, waiting)
    case Done =>
      exists during, before, waiting, after ::
        IsDuring(during, before, waiting) && IsEchoed(after)
        && trace == during + [Completed, Answered(Ready([]))] + after
  }

  lemma ArmedKeepsShape(trace: seq<Event>, gate: Gate, room: nat)
    requires IsBefore(trace) && gate.onEof.Armed?
    ensures HasShape(trace + PollOnce(gate, room).2, PollOnce(gate, room).0.onEof)
  {
    var events := PollOnce(gate, room).2;
    var all := trace + events;
    OneEcho(PollInner(gate.inner, room).0);
    if PollInner(gate.inner, room).0 != Ready([]) {
      EchoesFollow(trace, events);
    } else if gate.onEof.delay == 0 {
      var during := trace + [Polled(Ready([])), Started];
      assert IsDuring(during, trace, []);
      assert all == during + [Completed, Answered(Ready([]))] + [];
      assert IsEchoed([]);
    } else {
      assert IsDuring(all, trace, [Answered(Pending)]);
    }
  }

  lemma SendingKeepsShape(trace: seq<Event>, gate: Gate, room: nat, before: seq<Event>, waiting: seq<Event>)
    requires IsDuring(trace, before, waiting) && gate.onEof.Sending?
    ensures HasShape(trace + PollOnce(gate, room).2, PollOnce(gate, room).0.onEof)
  {
    var all := trace + PollOnce(gate, room).2;
    if gate.onEof.left == 0 {
      assert all == trace + [Completed, Answered(Ready([]))] + [] && IsEchoed([]);
    } else {
      assert IsDuring(all, before, waiting + [Answered(Pending)]);
    }
  }

  lemma DoneKeepsShape(during: seq<Event>, before: seq<Event>, waiting: seq<Event>, after: seq<Event>, gate: Gate,
                       room: nat)
    requires IsDuring(during, before, waiting) && IsEchoed(after) && gate.onEof.Done?
    ensures HasShape(during + [Completed, Answered(Ready([]))] + after + PollOnce(gate, room).2,
                     PollOnce(gate, room).0.onEof)
  {
    var events := PollOnce(gate, room).2;
    OneEcho(PollInner(gate.inner, room).0);
    EchoesFollow(after, events);
    Regroup(during + [Completed, Answered(Ready([]))], after, events);
  }

  lemma OnePollKeepsShape(trace: seq<Event>, gate: Gate, room: nat)
    requires HasShape(trace, gate.onEof)
    ensures HasShape(trace + PollOnce(gate, room).2, PollOnce(gate, room).0.onEof)
  {
    match gate.onEof
    case Armed(_) => ArmedKeepsShape(trace, gate, room);
    case Sending(_) =>
      var before, waiting :| IsDuring(trace, before, waiting);
      SendingKeepsShape(trace, gate, room, before, waiting);
    case Done =>
      var during, before, waiting, after :|
        IsDuring(during, before, waiting) && IsEchoed(after)
        && trace == during + [Completed, Answered(Ready([]))] + after;
      DoneKeepsShape(during, before, waiting, after, gate, room);
  }

  lemma RunUnfolds(trace: seq<Event>, gate: Gate, rooms: seq<nat>)
    requires rooms != []
    ensures var (next, _, events) := PollOnce(gate, rooms[0]);
            && Run(gate, rooms).0 == Run(next, rooms[1..]).0
            && trace + Run(gate, rooms).1 == (trace + events) + Run(next, rooms[1..]).1
  {
  }

  /**
   * Every run, whatever the polls and the schedules, is a prefix of: polls answered as the wrapped stream answers
   * them, its end of file, the start of the send, waiting in which it is not polled, the end of the send, the end
   * of file answered, and echoed polls. So the send starts at most once, the stream is never polled during it, and no
   * end of file is answered before it has completed.
   */
  lemma {:induction false} EveryRunHasShape(trace: seq<Event>, gate: Gate, rooms: seq<nat>)
    requires HasShape(trace, gate.onEof)
    ensures HasShape(trace + Run(gate, rooms).1, Run(gate, rooms).0.onEof)
    decreases |rooms|
  {
    if rooms == [] {
      assert trace + [] == trace;
    } else {
      var (next, _, events) := PollOnce(gate, rooms[0]);
      OnePollKeepsShape(trace, gate, rooms[0]);
      EveryRunHasShape(trace + events, next, rooms[1..]);
      RunUnfolds(trace, gate, rooms);
    }
  }

  // ----- The send comes to its end -----

  /** The wrapped stream is at its end of file: the next thing it says is that there are no bytes. */
  predicate AtEof(inner: seq<Outcome>) {
    inner != [] && inner[0] == Bytes([])
  }

  /** `n` polls that are told to wait. */
  function Waits(n: nat): seq<Event> {
    if n == 0 then [] else [Answered(Pending)] + Waits(n - 1)
  }

  /** A send that takes `left` more polls is polled so often, then once more, and then the end of file is answered. */
  lemma {:induction false} SendIsAwaited(gate: Gate, rooms: seq<nat>)
    requires gate.onEof.Sending?
    ensures |rooms| <= gate.onEof.left ==>
              Run(gate, rooms) == (gate.(onEof := Sending(gate.onEof.left - |rooms|)), Waits(|rooms|))
    ensures |rooms| == gate.onEof.left + 1 ==>
              Run(gate, rooms) == (gate.(onEof := Done), Waits(gate.onEof.left) + [Completed, Answered(Ready([]))])
    decreases |rooms|
  {
    if rooms != [] {
      var next, events := PollOnce(gate, rooms[0]).0, PollOnce(gate, rooms[0]).2;
      if gate.onEof.left == 0 {
        assert |rooms| == 1 ==> rooms[1..] == [];
        assert events + [] == events && [] + events == events;
      } else {
        SendIsAwaited(next, rooms[1..]);
        Regroup([Answered(Pending)], Waits(gate.onEof.left - 1), [Completed, Answered(Ready([]))]);
      }
    }
  }

  /**
   * At the end of file, for every room the polls come with: the first poll starts the send, and a send that takes
   * `delay` polls more is done after that many, the last of which answers the end of file; not one sooner.
   */
  lemma EofComesThrough(gate: Gate, rooms: seq<nat>)
    requires gate.onEof.Armed? && AtEof(gate.inner)
    ensures 1 <= |rooms| <= gate.onEof.delay ==>
              Run(gate, rooms) == (Gate(gate.inner[1..], Sending(gate.onEof.delay - |rooms|)),
                                   [Polled(Ready([])), Started] + Waits(|rooms|))
    ensures |rooms| == gate.onEof.delay + 1 ==>
              Run(gate, rooms) == (Gate(gate.inner[1..], Done),
                                   [Polled(Ready([])), Started] + Waits(gate.onEof.delay)
                                   + [Completed, Answered(Ready([]))])
  {
    if |rooms| == 1 && gate.onEof.delay == 0 {
      EofIsPolled(gate, rooms[0]);
      RunOfOne(gate, rooms[0]);
      assert rooms == [rooms[0]];
      assert rooms[1..] == [];
      NothingInFront([Polled(Ready([])), Started]);
    } else if 1 <= |rooms| <= gate.onEof.delay {
      SendGoesOn(gate, rooms);
    } else if |rooms| == gate.onEof.delay + 1 {
      SendEnds(gate, rooms);
    }
  }

  lemma RunStep(gate: Gate, rooms: seq<nat>, next: Gate, events: seq<Event>)
    requires rooms != [] && PollOnce(gate, rooms[0]).0 == next && PollOnce(gate, rooms[0]).2 == events
    ensures Run(gate, rooms) == (Run(next, rooms[1..]).0, events + Run(next, rooms[1..]).1)
  {
  }

  lemma SendGoesOn(gate: Gate, rooms: seq<nat>)
    requires gate.onEof.Armed? && AtEof(gate.inner) && 1 <= |rooms| <= gate.onEof.delay
    ensures Run(gate, rooms) == (Gate(gate.inner[1..], Sending(gate.onEof.delay - |rooms|)),
                                 [Polled(Ready([])), Started] + Waits(|rooms|))
  {
    var next := Gate(gate.inner[1..], Sending(gate.onEof.delay - 1));
    EofIsPolled(gate, rooms[0]);
    RunStep(gate, rooms, next, [Polled(Ready([])), Started] + [Answered(Pending)]);
    SendIsAwaited(next, rooms[1..]);
    Regroup([Polled(Ready([])), Started], [Answered(Pending)], Waits(|rooms| - 1));
  }

  lemma SendEnds(gate: Gate, rooms: seq<nat>)
    requires gate.onEof.Armed? && AtEof(gate.inner) && |rooms| == gate.onEof.delay + 1 && gate.onEof.delay > 0
    ensures Run(gate, rooms) == (Gate(gate.inner[1..], Done),
                                 [Polled(Ready([])), Started] + Waits(gate.onEof.delay)
                                 + [Completed, Answered(Ready([]))])
  {
    var next := Gate(gate.inner[1..], Sending(gate.onEof.delay - 1));
    EofIsPolled(gate, rooms[0]);
    RunStep(gate, rooms, next, [Polled(Ready([])), Started] + [Answered(Pending)]);
    SendIsAwaited(next, rooms[1..]);
    StartThenWaits(gate.onEof.delay - 1, [Completed, Answered(Ready([]))]);
  }

  lemma EofIsPolled(gate: Gate, room: nat)
    requires gate.onEof.Armed? && AtEof(gate.inner)
    ensures PollOnce(gate, room).0
         == Gate(gate.inner[1..], if gate.onEof.delay == 0 then Done else Sending(gate.onEof.delay - 1))
    ensures PollOnce(gate, room).2
         == [Polled(Ready([])), Started]
            + if gate.onEof.delay == 0 then [Completed, Answered(Ready([]))] else [Answered(Pending)]
  {
    assert PollInner(gate.inner, room) == (Ready([]), gate.inner[1..]);
  }

  lemma RunOfOne(gate: Gate, room: nat)
    ensures Run(gate, [room]) == (PollOnce(gate, room).0, PollOnce(gate, room).2)
  {
    assert [room][1..] == [];
    NothingInFront(PollOnce(gate, room).2);
  }

  lemma StartThenWaits(n: nat, end: seq<Event>)
    ensures ([Polled(Ready([])), Started] + [Answered(Pending)]) + (Waits(n) + end)
         == [Polled(Ready([])), Started] + Waits(n + 1) + end
  {
    Regroup([Answered(Pending)], Waits(n), end);
    Regroup([Polled(Ready([])), Started], [Answered(Pending)], Waits(n) + end);
    Regroup([Polled(Ready([])), Started], Waits(n + 1), end);
  }

  // ----- Otherwise the wrapper is transparent -----

  /** What polling the wrapped stream itself would answer, and what it will say afterwards. */
  function Direct(inner: seq<Outcome>, rooms: seq<nat>): (seq<Answer>, seq<Outcome>)
    decreases |rooms|
  {
    if rooms == [] then ([], inner)
    else
      var (answer, rest) := PollInner(inner, rooms[0]);
      var (answers, last) := Direct(rest, rooms[1..]);
      ([answer] + answers, last)
  }

  /** Polls of the wrapped stream with these answers, each passed on. */
  function Echo(answers: seq<Answer>): seq<Event> {
    if answers == [] then [] else [Polled(answers[0]), Answered(answers[0])] + Echo(answers[1..])
  }

  /**
   * Before the wrapped stream answers its end of file, and again once the send is done, a caller is answered exactly
   * what it would be without the wrapper, poll by poll, and the wrapped stream is left exactly where it would be.
   */
  lemma {:induction false} WrapperIsTransparent(gate: Gate, rooms: seq<nat>)
    requires gate.onEof.Done? || (gate.onEof.Armed? && Ready([]) !in Direct(gate.inner, rooms).0)
    ensures Run(gate, rooms) == (gate.(inner := Direct(gate.inner, rooms).1), Echo(Direct(gate.inner, rooms).0))
    decreases |rooms|
  {
    if rooms != [] {
      var (answer, rest) := PollInner(gate.inner, rooms[0]);
      var answers := Direct(rest, rooms[1..]).0;
      DropFront([answer], answers);
      assert answer in [answer] + answers;
      assert forall a <- answers :: a in [answer] + answers;
      WrapperIsTransparent(gate.(inner := rest), rooms[1..]);
    }
  }

  // ----- Bytes -----

  function Waiting(inner: seq<Outcome>): seq<Byte> {
    if inner == [] then [] else (if inner[0].Bytes? then inner[0].bytes else []) + Waiting(inner[1..])
  }

  /** The bytes the polls of a trace put into the caller's buffers. */
  function Delivered(trace: seq<Event>): seq<Byte> {
    if trace == [] then []
    else (if trace[0].Answered? then BytesOf(trace[0].answer) else []) + Delivered(trace[1..])
  }

  lemma {:induction false} DeliveredInTurn(a: seq<Event>, b: seq<Event>)
    ensures Delivered(a + b) == Delivered(a) + Delivered(b)
  {
    if a == [] {
      assert a + b == b;
    } else {
      assert (a + b)[1..] == a[1..] + b;
      DeliveredInTurn(a[1..], b);
    }
  }

  lemma WaitingOfSplit(b: seq<Byte>, room: nat, rest: seq<Outcome>)
    requires room <= |b|
    ensures Waiting([Bytes(b)] + rest) == b[..room] + Waiting([Bytes(b[room..])] + rest)
  {
    DropFront([Bytes(b)], rest);
    DropFront([Bytes(b[room..])], rest);
    Regroup(b[..room], b[room..], Waiting(rest));
    assert b == b[..room] + b[room..];
  }

  lemma InnerConserves(inner: seq<Outcome>, room: nat)
    ensures var (answer, rest) := PollInner(inner, room);
            Waiting(inner) == BytesOf(answer) + Waiting(rest)
  {
    if inner != [] && inner[0].Bytes? && |inner[0].bytes| > room {
      var b := inner[0].bytes;
      assert inner == [Bytes(b)] + inner[1..];
      assert inner[0 := Bytes(b[room..])] == [Bytes(b[room..])] + inner[1..];
      WaitingOfSplit(b, room, inner[1..]);
    }
  }

  lemma DeliveredOfPoll(events: seq<Event>, answer: Answer)
    requires events != [] && events[|events| - 1] == Answered(answer)
    requires forall i :: 0 <= i < |events| - 1 ==> !events[i].Answered?
    ensures Delivered(events) == BytesOf(answer)
  {
    if |events| > 1 {
      DeliveredOfPoll(events[1..], answer);
    }
  }

  lemma DeliveredByPoll(gate: Gate, room: nat)
    ensures Delivered(PollOnce(gate, room).2) == BytesOf(PollOnce(gate, room).1)
  {
    DeliveredOfPoll(PollOnce(gate, room).2, PollOnce(gate, room).1);
  }

  lemma PollBytes(gate: Gate, room: nat)
    ensures Waiting(gate.inner) == BytesOf(PollOnce(gate, room).1) + Waiting(PollOnce(gate, room).0.inner)
  {
    if gate.onEof.Sending? {
      NothingInFront(Waiting(gate.inner));
    } else {
      InnerConserves(gate.inner, room);
    }
  }

  lemma OnePollConserves(gate: Gate, room: nat)
    ensures Waiting(gate.inner) == Delivered(PollOnce(gate, room).2) + Waiting(PollOnce(gate, room).0.inner)
  {
    PollBytes(gate, room);
    DeliveredByPoll(gate, room);
  }

  /** Holding the end of file back loses, adds and reorders nothing: what was not yet delivered still waits. */
  lemma {:induction false} BytesAreConserved(gate: Gate, rooms: seq<nat>)
    ensures Waiting(gate.inner) == Delivered(Run(gate, rooms).1) + Waiting(Run(gate, rooms).0.inner)
    decreases |rooms|
  {
    if rooms != [] {
      var (next, _, events) := PollOnce(gate, rooms[0]);
      OnePollConserves(gate, rooms[0]);
      BytesAreConserved(next, rooms[1..]);
      DeliveredInTurn(events, Run(next, rooms[1..]).1);
    }
  }

  // ----- When the send starts -----

  /**
   * A poll starts the send exactly when none was started before and the stream answers no bytes. With room in the
   * buffer that is its end of file; a poll without room starts it on any bytes that wait, though they have not
   * been delivered.
   */
  lemma PollStartsSendIff(gate: Gate, room: nat)
    ensures Started in PollOnce(gate, room).2
       <==> && gate.onEof.Armed? && gate.inner != [] && gate.inner[0].Bytes?
            && (AtEof(gate.inner) || room == 0)
  {
    var events := PollOnce(gate, room).2;
    assert gate.onEof.Armed? && PollInner(gate.inner, room).0 == Ready([]) ==> events[1] == Started;
  }

  /** The run starts its send at some poll where the stream is not at its end. */
  predicate StartsEarly(gate: Gate, rooms: seq<nat>)
    decreases |rooms|
  {
    if rooms == [] then false
    else
      || (Started in PollOnce(gate, rooms[0]).2 && !AtEof(gate.inner))
      || StartsEarly(PollOnce(gate, rooms[0]).0, rooms[1..])
  }

  /** Some poll has no room while bytes wait and no end of file has been seen. */
  predicate PollsWithoutRoom(gate: Gate, rooms: seq<nat>)
    decreases |rooms|
  {
    if rooms == [] then false
    else
      || (rooms[0] == 0 && gate.onEof.Armed? && gate.inner != [] && gate.inner[0].Bytes? && !AtEof(gate.inner))
      || PollsWithoutRoom(PollOnce(gate, rooms[0]).0, rooms[1..])
  }

  /** The exit status goes out before the stream's end exactly when a poll comes without room while bytes wait. */
  lemma {:induction false} StartsEarlyIff(gate: Gate, rooms: seq<nat>)
    ensures StartsEarly(gate, rooms) <==> PollsWithoutRoom(gate, rooms)
    decreases |rooms|
  {
    if rooms != [] {
      PollStartsSendIff(gate, rooms[0]);
      StartsEarlyIff(PollOnce(gate, rooms[0]).0, rooms[1..]);
    }
  }

  /** A caller that always leaves room in the buffer gets the exit status after the stream's end, never before. */
  lemma {:induction false} RoomIsEnough(gate: Gate, rooms: seq<nat>)
    requires forall k :: 0 <= k < |rooms| ==> rooms[k] > 0
    ensures !StartsEarly(gate, rooms)
    decreases |rooms|
  {
    if rooms != [] {
      PollStartsSendIff(gate, rooms[0]);
      RoomIsEnough(PollOnce(gate, rooms[0]).0, rooms[1..]);
    }
  }

  /** One poll without room, and the exit status is sent with a byte still waiting. */
  lemma EmptyBufferStartsEarly()
    ensures var gate := Gate([Bytes([1 as Byte]), Bytes([])], Armed(0));
            && StartsEarly(gate, [0]) && Delivered(Run(gate, [0]).1) == []
            && Waiting(Run(gate, [0]).0.inner) == [1]
  {
    var gate := Gate([Bytes([1 as Byte]), Bytes([])], Armed(0));
    assert [0 as nat][1..] == [];
    var next := PollOnce(gate, 0).0;
    assert next.inner == [Bytes([1 as Byte]), Bytes([])];
    assert next.inner[1..] == [Bytes([])] && next.inner[1..][1..] == [];
    PollStartsSendIff(gate, 0);
    BytesAreConserved(gate, [0]);
    assert Waiting([Bytes([])]) == [];
    assert Waiting(gate.inner) == [1];
    assert Run(gate, [0]).0 == next;
  }
}
