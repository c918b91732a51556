/** The two loops at the ends of a relay's queue: a pump that fills it, and the writer that empties it. */
module Pumps {
  import opened Wrappers
  import opened Sequences
  import opened Frames
  import opened Relays

  /** A stream of the child's, to its end; each read yields as much as the system happens to give. */
  class ChildOutput {
    var unread: seq<Byte>
    const given: nat -> nat
    var calls: nat

    constructor (unread: seq<Byte>, given: nat -> nat)
      ensures this.unread == unread && this.given == given
    {
      this.unread := unread;
      this.given := given;
      calls := 0;
    }

    /** Some bytes from the front, no more than `capacity`, and none only at the end. */
    method Read(capacity: nat) returns (chunk: seq<Byte>)
      requires capacity > 0
      modifies this
      ensures old(unread) == chunk + unread && |chunk| <= capacity
      ensures chunk == [] <==> old(unread) == []
    {
      var most := if capacity < |unread| then capacity else |unread|;
      var n := given(calls);
      var take := if n == 0 && most > 0 then 1 else if n < most then n else most;
      calls := calls + 1;
      chunk, unread := unread[..take], unread[take..];
    }
  }

  /** The sending end of the queue; its receiver may be gone from some message on. */
  class Sender {
    var sent: seq<Frame>
    const accepts: nat

    constructor (accepts: nat)
      ensures sent == [] && this.accepts == accepts
    {
      sent := [];
      this.accepts := accepts;
    }

    method Send(frame: Frame) returns (ok: bool)
      modifies this
      ensures ok <==> |old(sent)| < accepts
      ensures sent == if ok then old(sent) + [frame] else old(sent)
    {
      ok := |sent| < accepts;
      if ok {
        sent := sent + [frame];
      }
    }
  }

  /** Frames of one stream, none larger than a chunk. */
  predicate AreChunks(frames: seq<Frame>, s: Stream) {
    forall f <- frames :: BytesIn(f, s) != [] && f == Wrap(s, BytesIn(f, s)) && |BytesIn(f, s)| <= CHUNK
  }

  /**
   * The pump sends what it reads, chunk by chunk and in order: all of it, or what came before the queue stopped
   * accepting.
   */
  method PumpStream(reader: ChildOutput, tx: Sender, s: Stream) returns (ghost frames: seq<Frame>)
    modifies reader, tx
    ensures tx.sent == old(tx.sent) + frames && AreChunks(frames, s)
    ensures BytesOf(frames, s) <= old(reader.unread)
    ensures BytesOf(frames, s) == old(reader.unread) || |tx.sent| >= tx.accepts
  {
    frames := [];
    while true
      invariant tx.sent == old(tx.sent) + frames && AreChunks(frames, s)
      invariant old(reader.unread) == BytesOf(frames, s) + reader.unread
      decreases |reader.unread|
    {
      var chunk := reader.Read(CHUNK);
      if chunk == [] {
        return;
      }
      Regroup(BytesOf(frames, s), chunk, reader.unread);
      var ok := tx.Send(Wrap(s, chunk));
      if !ok {
        return;
      }
      Regroup(old(tx.sent), frames, [Wrap(s, chunk)]);
      BytesOfOneMore(frames, Wrap(s, chunk), s);
      frames := frames + [Wrap(s, chunk)];
    }
  }

  /** The writer puts the frames it is given on the wire in order, and stops at one that cannot be written. */
  method WriteFrames(json: Json, rx: seq<Frame>, w: WriteHalf) returns (written: nat)
    modifies w
    ensures written <= |rx| && AllFit(json, rx[..written])
    ensures w.sent == old(w.sent) + EncodeAll(json, rx[..written])
    ensures written < |rx| ==> !Fits(json, rx[written])
  {
    written := 0;
    while written < |rx|
      invariant written <= |rx| && AllFit(json, rx[..written])
      invariant w.sent == old(w.sent) + EncodeAll(json, rx[..written])
    {
      var r := w.WriteFrame(json, rx[written]);
      if r.Err? {
        return;
      }
      OneMoreIsWritten(json, rx, written);
      Regroup(old(w.sent), EncodeAll(json, rx[..written]), Encode(json, rx[written]).value);
      written := written + 1;
    }
  }

  lemma OneMoreIsWritten(json: Json, rx: seq<Frame>, k: nat)
    requires k < |rx| && AllFit(json, rx[..k]) && Fits(json, rx[k])
    ensures AllFit(json, rx[..k + 1])
    ensures EncodeAll(json, rx[..k + 1]) == EncodeAll(json, rx[..k]) + Encode(json, rx[k]).value
  {
    assert rx[..k + 1] == rx[..k] + [rx[k]];
    EncodeAllOfMore(json, rx[..k], [rx[k]]);
    assert [rx[k]][1..] == [];
  }

  // ----- The loops as steps of a relay -----

  /** Steps of the pump of one stream. */
  predicate IsPumpAct(act: Act, s: Stream) {
    (act.Read? || act.Send? || act.Eof?) && act.stream == s
  }

  /** The relay once the pump of `s` has read these frames' bytes and queued the frames. */
  function Pumped(r: Relay, s: Stream, frames: seq<Frame>): Relay
    requires |BytesOf(frames, s)| <= |LaneOf(r, s).unread|
  {
    var lane := LaneOf(r, s);
    WithLane(r, s, lane.(unread := lane.unread[|BytesOf(frames, s)|..])).(sent := r.sent + frames)
  }

  lemma ExecTwoMore(json: Json, r: Relay, acts: seq<Act>, t: Relay, a: Act, b: Act)
    requires Exec(json, r, acts) == Some(t) && Enabled(t, a) && Enabled(Do(json, t, a), b)
    ensures Exec(json, r, acts + [a] + [b]) == Some(Do(json, Do(json, t, a), b))
  {
    assert (acts + [a])[..|acts|] == acts;
    assert (acts + [a] + [b])[..|acts + [a]|] == acts + [a];
  }

  lemma ChunkIsPumped(json: Json, r: Relay, s: Stream, n: nat)
    requires r.kind == Keeper && !r.broken && LaneOf(r, s).pump == Reading
    requires 1 <= n <= CHUNK && n <= |LaneOf(r, s).unread|
    ensures var lane := LaneOf(r, s);
            && Enabled(r, Read(s, n)) && Enabled(Do(json, r, Read(s, n)), Send(s))
            && Do(json, Do(json, r, Read(s, n)), Send(s))
               == WithLane(r, s, lane.(unread := lane.unread[n..])).(sent := r.sent + [Wrap(s, lane.unread[..n])])
  {
  }

  lemma OneMoreIsPumped(r: Relay, s: Stream, init: seq<Frame>, last: Frame)
    requires BytesOf(init + [last], s) <= LaneOf(r, s).unread && last == Wrap(s, BytesIn(last, s))
    ensures BytesOf(init, s) <= LaneOf(r, s).unread
    ensures var left, n := LaneOf(Pumped(r, s, init), s).unread, |BytesIn(last, s)|;
            && n <= |left| && last == Wrap(s, left[..n])
            && left[n..] == LaneOf(Pumped(r, s, init + [last]), s).unread
    ensures Pumped(r, s, init).sent + [last] == Pumped(r, s, init + [last]).sent
  {
    BytesOfOneMore(init, last, s);
    var all, before, chunk := LaneOf(r, s).unread, BytesOf(init, s), BytesIn(last, s);
    assert all[..|before + chunk|] == before + chunk;
    assert before == all[..|before|] && chunk == all[|before|..][..|chunk|];
    assert all[|before|..][|chunk|..] == all[|before + chunk|..];
    Regroup(r.sent, init, [last]);
  }

  predicate ArePumpActs(acts: seq<Act>, s: Stream) {
    forall act <- acts :: IsPumpAct(act, s)
  }

  /** Frames of what a pump that is reading has before it, while its queue accepts. */
  predicate CanPump(r: Relay, s: Stream, frames: seq<Frame>) {
    && r.kind == Keeper && !r.broken && LaneOf(r, s).pump == Reading
    && AreChunks(frames, s) && BytesOf(frames, s) <= LaneOf(r, s).unread
  }

  predicate IsPumpRun(json: Json, r: Relay, s: Stream, acts: seq<Act>, frames: seq<Frame>)
    requires CanPump(r, s, frames)
  {
    ArePumpActs(acts, s) && Exec(json, r, acts) == Some(Pumped(r, s, frames))
  }

  /** One more frame is one read and one send more. */
  lemma FrameIsPumped(json: Json, r: Relay, s: Stream, init: seq<Frame>, last: Frame)
    requires r.kind == Keeper && !r.broken && LaneOf(r, s).pump == Reading && AreChunks([last], s)
    requires BytesOf(init + [last], s) <= LaneOf(r, s).unread && BytesOf(init, s) <= LaneOf(r, s).unread
    ensures var t, n := Pumped(r, s, init), |BytesIn(last, s)|;
            && Enabled(t, Read(s, n)) && Enabled(Do(json, t, Read(s, n)), Send(s))
            && Do(json, Do(json, t, Read(s, n)), Send(s)) == Pumped(r, s, init + [last])
  {
    assert last in [last];
    OneMoreIsPumped(r, s, init, last);
    ChunkIsPumped(json, Pumped(r, s, init), s, |BytesIn(last, s)|);
  }

  lemma OneMoreAct(json: Json, r: Relay, s: Stream, init: seq<Frame>, last: Frame, before: seq<Act>)
    returns (acts: seq<Act>)
    requires CanPump(r, s, init) && CanPump(r, s, init + [last]) && AreChunks([last], s)
    requires IsPumpRun(json, r, s, before, init)
    ensures IsPumpRun(json, r, s, acts, init + [last])
  {
    var n := |BytesIn(last, s)|;
    FrameIsPumped(json, r, s, init, last);
    ExecTwoMore(json, r, before, Pumped(r, s, init), Read(s, n), Send(s));
    acts := before + [Read(s, n)] + [Send(s)];
  }

  lemma NothingIsPumped(r: Relay, s: Stream)
    ensures BytesOf([], s) == [] && Pumped(r, s, []) == r
  {
    assert r.sent + [] == r.sent;
  }

  lemma AllButLast(r: Relay, s: Stream, init: seq<Frame>, last: Frame)
    requires CanPump(r, s, init + [last])
    ensures CanPump(r, s, init) && AreChunks([last], s)
  {
    assert forall f <- init :: f in init + [last];
    assert last in init + [last];
    BytesOfOneMore(init, last, s);
  }

  /** The frames a pump loop queues are what reads and sends of the relay's pump queue, in the same order. */
  lemma {:induction false} FramesArePumped(json: Json, r: Relay, s: Stream, frames: seq<Frame>) returns (acts: seq<Act>)
    requires CanPump(r, s, frames)
    ensures IsPumpRun(json, r, s, acts, frames)
  {
    if frames == [] {
      acts := [];
      NothingIsPumped(r, s);
    } else {
      var init, last := frames[..|frames| - 1], frames[|frames| - 1];
      assert frames == init + [last];
      AllButLast(r, s, init, last);
      var before := FramesArePumped(json, r, s, init);
      acts := OneMoreAct(json, r, s, init, last, before);
    }
  }

  /**
   * The pump loop is the relay's pump. From a relay whose pipe is closed, whatever frames the loop queued are queued
   * by steps of that pump; after the whole output one more step ends it, and so does, once the writer is gone, one
   * more chunk that cannot be sent.
   */
  lemma LoopIsPumped(json: Json, r: Relay, s: Stream, frames: seq<Frame>) returns (acts: seq<Act>)
    requires CanPump(r, s, frames) && !LaneOf(r, s).isOpen
    ensures IsPumpRun(json, r, s, acts, frames)
    ensures var t := Pumped(r, s, frames);
            if BytesOf(frames, s) == LaneOf(r, s).unread then
              && Enabled(t, Eof(s)) && LaneOf(Do(json, t, Eof(s)), s).pump == Ended
              && Do(json, t, Eof(s)).sent == r.sent + frames
            else
              var gone := t.(broken := true);
              && Enabled(gone, Read(s, 1)) && Enabled(Do(json, gone, Read(s, 1)), Send(s))
              && LaneOf(Do(json, Do(json, gone, Read(s, 1)), Send(s)), s).pump == Ended
              && Do(json, Do(json, gone, Read(s, 1)), Send(s)).sent == r.sent + frames
  {
    acts := FramesArePumped(json, r, s, frames);
    assert BytesOf(frames, s) == LaneOf(r, s).unread[..|BytesOf(frames, s)|];
  }
}
