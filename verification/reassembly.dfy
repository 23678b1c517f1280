/**
 * Frame reassembly of the video listener, stream_video.py:170-246, taken out
 * of the receive loop as a pure step over one datagram. A frame is built from
 * a key fragment (fragment index 1, payload starting with FF D8) and the
 * continuation fragments (index above 1) that follow it; it is finished when
 * a video datagram with a different frame id arrives. Every place where the
 * source raises, or would raise, ends the stream with an error.
 */
module Reassembly {
  import opened Wire
  import opened PacketHeader
  import Obfuscation

  /** Video payload starts after this many bytes (stream_video.py:12). */
  const ProprietaryHeaderLength: nat := 54
  /** The fragment index is a single byte inside the proprietary header. */
  const FragmentIndexOffset: nat := 48
  const FrameTypeOffset: nat := 7

  const HeartbeatType: byte := 0x01
  const VideoType: byte := 0x03

  /**
   * The loop's `running_frame`, `current_frame_sequence` and `frame_count`.
   * `None` stands for Python's `None`.
   */
  datatype State = State(running: Option<Bytes>, current: Option<u32>, frameCount: nat)
  {
    /**
     * Every reachable state has a frame id once a frame is in progress, and
     * a frame in progress is never empty; so `if running_frame:` is
     * `running.Some?` and the id passed to the codec is never `None`.
     */
    predicate Valid() {
      running.Some? ==> current.Some? && |running.value| > 0
    }
  }

  const Initial: State := State(None, None, 0)

  /** Why the listener stops. */
  datatype StreamError =
    | NotProprietary               // stream_video.py:246: too short or not starting with 63 63
    | UnknownMessageType(cmd: byte) // stream_video.py:242: neither heartbeat nor video
    | MissingSoi                    // stream_video.py:238: index 0, or index 1 without FF D8
    | AppendWithoutFrame            // stream_video.py:234: `None += payload` raises TypeError

  /**
   * The result of one datagram. A frame finished before the error is still
   * reported with the error, because the source hands it to the decoder
   * before it raises.
   */
  datatype Outcome =
    | Advance(next: State, emitted: Option<Bytes>)
    | Halt(error: StreamError, emitted: Option<Bytes>)

  /** The guard of line 170. */
  predicate IsProprietary(data: Bytes) {
    |data| > ProprietaryHeaderLength && data[0] == 0x63 && data[1] == 0x63
  }

  /** A datagram the video branch (line 193) handles. */
  predicate IsVideo(data: Bytes) {
    IsProprietary(data) && data[2] == VideoType
  }

  function FrameIdOf(data: Bytes): u32
    requires |data| >= HeaderLength
  {
    ReadHeader(data).frameId
  }

  /** `data[48] if len(data) > 48 else 0` */
  function FragmentIndex(data: Bytes): byte {
    if |data| > FragmentIndexOffset then data[FragmentIndexOffset] else 0
  }

  /** `data[PROPRIETARY_HEADER_LENGTH:]` */
  function FragmentPayload(data: Bytes): Bytes {
    if |data| >= ProprietaryHeaderLength then data[ProprietaryHeaderLength..] else []
  }

  /** A passing line-170 guard leaves nothing for line 174 to reject. */
  lemma ProprietaryHeaderDecodes(data: Bytes)
    requires IsProprietary(data)
    ensures DecodePacketHeader(data).Some?
    ensures DecodePacketHeader(data).value.header == ReadHeader(data)
  {
  }

  /** What a video datagram leaves of the frame in progress before its own payload is used. */
  function Kept(s: State, frameId: u32): Option<Bytes> {
    if s.current == Some(frameId) then s.running else None
  }

  /**
   * The frame a video datagram finishes, if any (stream_video.py:196-210): a
   * new frame id finishes the frame in progress, deobfuscated with the
   * previous id but with the frame type byte of the NEW datagram.
   */
  function Finished(s: State, data: Bytes): Option<Bytes>
    requires s.Valid() && IsVideo(data)
  {
    if s.current != Some(FrameIdOf(data)) && s.running.Some? then
      Some(Obfuscation.Deobfuscate(s.running.value, s.current.value, data[FrameTypeOffset]))
    else None
  }

  /** One datagram through lines 170-246. */
  function Step(s: State, data: Bytes): (o: Outcome)
    requires s.Valid()
    ensures o.Advance? ==> o.next.Valid()
    ensures !IsProprietary(data) ==> o == Halt(NotProprietary, None)
    ensures IsProprietary(data) && data[2] == HeartbeatType ==> o == Advance(s, None)
    ensures IsProprietary(data) && data[2] != HeartbeatType && data[2] != VideoType ==>
      o == Halt(UnknownMessageType(data[2]), None)
    ensures o.emitted.Some? ==>
      && IsVideo(data) && s.running.Some? && s.current != Some(FrameIdOf(data))
      && o.emitted.value == Obfuscation.Deobfuscate(s.running.value, s.current.value, data[FrameTypeOffset])
    ensures o.Advance? ==> o.next.frameCount == s.frameCount + (if o.emitted.Some? then 1 else 0)
    ensures o.Advance? && IsVideo(data) ==> o.next.current == Some(FrameIdOf(data))
  {
    if !IsProprietary(data) then Halt(NotProprietary, None)
    else match DecodePacketHeader(data)
      case None =>
        // line 174 cannot fire once line 170 has passed
        assert false; Advance(s, None)
      case Some(hdr) =>
        var messageType := hdr.header.cmdType;
        if messageType == HeartbeatType then Advance(s, None)
        else if messageType == VideoType then
          var frameId := hdr.header.frameId;
          var emitted := Finished(s, data);
          var count := s.frameCount + (if emitted.Some? then 1 else 0);
          var payload := FragmentPayload(data);
          var index := FragmentIndex(data);
          if index == 1 && StartsWithSoi(payload) then
            Advance(State(Some(payload), Some(frameId), count), emitted)
          else if index > 1 then
            match Kept(s, frameId)
            case None => Halt(AppendWithoutFrame, emitted)
            case Some(frame) => Advance(State(Some(frame + payload), Some(frameId), count), emitted)
          else Halt(MissingSoi, emitted)
        else Halt(UnknownMessageType(messageType), None)
  }

  /**
   * How a video datagram is classified once the previous frame is finished:
   * a key fragment starts a new frame, a continuation extends the frame of
   * the same id, and everything else stops the stream.
   */
  lemma StepVideoFragment(s: State, data: Bytes)
    requires s.Valid() && IsVideo(data)
    ensures
      var o := Step(s, data);
      var id := FrameIdOf(data);
      var emitted := Finished(s, data);
      var count := s.frameCount + (if emitted.Some? then 1 else 0);
      var payload := FragmentPayload(data);
      && o.emitted == emitted
      && (FragmentIndex(data) == 1 && StartsWithSoi(payload) ==>
            o == Advance(State(Some(payload), Some(id), count), emitted))
      && (FragmentIndex(data) > 1 && Kept(s, id).Some? ==>
            o == Advance(State(Some(Kept(s, id).value + payload), Some(id), count), emitted))
      && (FragmentIndex(data) > 1 && Kept(s, id).None? ==>
            o == Halt(AppendWithoutFrame, emitted))
      && (FragmentIndex(data) == 0 || (FragmentIndex(data) == 1 && !StartsWithSoi(payload)) ==>
            o == Halt(MissingSoi, emitted))
  {
  }

  /**
   * A continuation whose key fragment never arrived stops the stream, even
   * when another frame was in progress (that frame is still handed over).
   */
  lemma OrphanContinuationHalts(s: State, data: Bytes)
    requires s.Valid() && IsVideo(data) && FragmentIndex(data) > 1
    requires s.current != Some(FrameIdOf(data))
    ensures Step(s, data) == Halt(AppendWithoutFrame, Finished(s, data))
  {
    StepVideoFragment(s, data);
  }

  datatype SessionEnd = Running(state: State) | Crashed(error: StreamError)

  /** Where the listener ends up after a run of datagrams, and the frames it handed over. */
  datatype Session = Session(end: SessionEnd, frames: seq<Bytes>)

  function Emitted(o: Option<Bytes>): seq<Bytes> {
    if o.Some? then [o.value] else []
  }

  /** The receive loop over a finite run of datagrams, stopping at the first error. */
  function Run(s: State, datagrams: seq<Bytes>): (r: Session)
    requires s.Valid()
    ensures |r.frames| <= |datagrams|
    ensures r.end.Running? ==> r.end.state.Valid() && r.end.state.frameCount == s.frameCount + |r.frames|
    decreases |datagrams|
  {
    if |datagrams| == 0 then Session(Running(s), [])
    else match Step(s, datagrams[0])
      case Halt(error, emitted) => Session(Crashed(error), Emitted(emitted))
      case Advance(next, emitted) =>
        var rest := Run(next, datagrams[1..]);
        Session(rest.end, Emitted(emitted) + rest.frames)
  }

  /** Running two pieces one after the other is running their concatenation. */
  lemma {:induction false} RunAppend(s: State, a: seq<Bytes>, b: seq<Bytes>)
    requires s.Valid()
    ensures
      var first := Run(s, a);
      Run(s, a + b) ==
        if first.end.Running? then
          var second := Run(first.end.state, b);
          Session(second.end, first.frames + second.frames)
        else first
    decreases |a|
  {
    if |a| == 0 {
      assert a + b == b;
    } else {
      var ab := a + b;
      assert ab[0] == a[0] && ab[1..] == a[1..] + b;
      var o := Step(s, a[0]);
      if o.Halt? {
        assert Run(s, ab) == Session(Crashed(o.error), Emitted(o.emitted));
        assert Run(s, a) == Session(Crashed(o.error), Emitted(o.emitted));
      } else {
        var next, emitted := o.next, o.emitted;
        var rest := Run(next, a[1..]);
        assert Run(s, a) == Session(rest.end, Emitted(emitted) + rest.frames);
        assert Run(s, ab) == Session(Run(next, ab[1..]).end, Emitted(emitted) + Run(next, ab[1..]).frames);
        RunAppend(next, a[1..], b);
        if rest.end.Running? {
          var second := Run(rest.end.state, b);
          ConcatAssociative(Emitted(emitted), rest.frames, second.frames);
        }
      }
    }
  }

  /** A key fragment of frame `id`. */
  predicate KeyFragment(data: Bytes, id: u32) {
    IsVideo(data) && FrameIdOf(data) == id && FragmentIndex(data) == 1 && StartsWithSoi(FragmentPayload(data))
  }

  /** A continuation fragment of frame `id`. */
  predicate Continuation(data: Bytes, id: u32) {
    IsVideo(data) && FrameIdOf(data) == id && FragmentIndex(data) > 1
  }

  /** The datagrams of one frame as the drone sends them: a key fragment, then continuations. */
  predicate FrameGroup(group: seq<Bytes>, id: u32) {
    && |group| > 0
    && KeyFragment(group[0], id)
    && forall i :: 1 <= i < |group| ==> Continuation(group[i], id)
  }

  /** The payloads of a run of fragments, in order. */
  function Payloads(group: seq<Bytes>): Bytes {
    if |group| == 0 then [] else FragmentPayload(group[0]) + Payloads(group[1..])
  }

  lemma ConcatAssociative<T>(a: seq<T>, b: seq<T>, c: seq<T>)
    ensures (a + b) + c == a + (b + c)
  {
  }

  /** A continuation of the frame in progress is appended to it. */
  lemma StepContinuation(s: State, data: Bytes, id: u32)
    requires s.Valid() && s.running.Some? && s.current == Some(id) && Continuation(data, id)
    ensures Step(s, data) == Advance(State(Some(s.running.value + FragmentPayload(data)), Some(id), s.frameCount), None)
  {
    StepVideoFragment(s, data);
  }

  /** A key fragment with a new frame id hands over the frame in progress and starts its own. */
  lemma StepNewKeyFragment(s: State, data: Bytes, id: u32)
    requires s.Valid() && s.current != Some(id) && KeyFragment(data, id)
    ensures Step(s, data) == Advance(State(Some(FragmentPayload(data)), Some(id), s.frameCount + |Lead(s, data)|), Finished(s, data))
    ensures Emitted(Finished(s, data)) == Lead(s, data)
  {
    StepVideoFragment(s, data);
  }

  /** Run after one step. */
  lemma RunCons(s: State, datagrams: seq<Bytes>, next: State, emitted: Option<Bytes>)
    requires s.Valid() && |datagrams| > 0 && Step(s, datagrams[0]) == Advance(next, emitted)
    ensures next.Valid()
    ensures Run(s, datagrams) == Session(Run(next, datagrams[1..]).end, Emitted(emitted) + Run(next, datagrams[1..]).frames)
  {
  }

  /** Continuations of the frame in progress are appended to it and hand over nothing. */
  lemma {:induction false} RunContinuations(s: State, group: seq<Bytes>, id: u32)
    requires s.Valid() && s.running.Some? && s.current == Some(id)
    requires forall i :: 0 <= i < |group| ==> Continuation(group[i], id)
    ensures Run(s, group) == Session(Running(State(Some(s.running.value + Payloads(group)), Some(id), s.frameCount)), [])
    decreases |group|
  {
    if |group| == 0 {
      assert s.running.value + [] == s.running.value;
    } else {
      var frame := s.running.value + FragmentPayload(group[0]);
      var next := State(Some(frame), Some(id), s.frameCount);
      var rest := group[1..];
      assert Continuation(group[0], id);
      assert forall i :: 0 <= i < |rest| ==> Continuation(rest[i], id) by {
        forall i | 0 <= i < |rest| ensures Continuation(rest[i], id) {
          assert rest[i] == group[i + 1];
        }
      }
      StepContinuation(s, group[0], id);
      RunCons(s, group, next, None);
      RunContinuations(next, rest, id);
      assert Emitted(None) == [];
      assert Payloads(group) == FragmentPayload(group[0]) + Payloads(rest);
      ConcatAssociative(s.running.value, FragmentPayload(group[0]), Payloads(rest));
    }
  }

  /** The frame a key fragment of a new frame id finishes, as a list of zero or one frames. */
  function Lead(s: State, key: Bytes): seq<Bytes>
    requires s.Valid() && IsVideo(key)
  {
    Emitted(Finished(s, key))
  }

  /**
   * One whole frame group for a new frame id: the previous frame, if any, is
   * handed over and the new frame holds every payload of the group.
   */
  lemma RunFrameGroup(s: State, group: seq<Bytes>, id: u32)
    requires s.Valid() && s.current != Some(id) && FrameGroup(group, id)
    ensures Run(s, group) ==
      Session(Running(State(Some(Payloads(group)), Some(id), s.frameCount + |Lead(s, group[0])|)), Lead(s, group[0]))
  {
    var key := group[0];
    var count := s.frameCount + |Lead(s, key)|;
    var next := State(Some(FragmentPayload(key)), Some(id), count);
    StepNewKeyFragment(s, key, id);
    RunCons(s, group, next, Finished(s, key));
    RunContinuations(next, group[1..], id);
    assert Payloads(group) == FragmentPayload(key) + Payloads(group[1..]);
    assert Run(s, group) == Session(Run(next, group[1..]).end, Lead(s, key) + []);
  }

  /** The datagrams of consecutive frame groups, one after the other. */
  function Flatten(groups: seq<seq<Bytes>>): seq<Bytes> {
    if |groups| == 0 then [] else groups[0] + Flatten(groups[1..])
  }

  /** A stream of whole frames whose neighbouring frame ids differ. */
  predicate WellFormedStream(groups: seq<seq<Bytes>>, ids: seq<u32>) {
    && |groups| == |ids| > 0
    && (forall k :: 0 <= k < |groups| ==> FrameGroup(groups[k], ids[k]))
    && (forall k :: 0 <= k < |ids| - 1 ==> ids[k] != ids[k + 1])
  }

  /**
   * The frames a well-formed stream should hand over, defined without the
   * state machine: every frame but the last, its payloads concatenated and
   * deobfuscated with its own id and the frame type of the next frame's key
   * fragment.
   */
  function CompletedFrames(groups: seq<seq<Bytes>>, ids: seq<u32>): seq<Bytes>
    requires WellFormedStream(groups, ids)
  {
    if |groups| == 1 then []
    else
      WellFormedTail(groups, ids);
      assert FrameGroup(groups[1], ids[1]);
      [Obfuscation.Deobfuscate(Payloads(groups[0]), ids[0], groups[1][0][FrameTypeOffset])]
        + CompletedFrames(groups[1..], ids[1..])
  }

  lemma WellFormedTail(groups: seq<seq<Bytes>>, ids: seq<u32>)
    requires WellFormedStream(groups, ids) && |groups| > 1
    ensures WellFormedStream(groups[1..], ids[1..])
  {
    forall k | 0 <= k < |groups| - 1 ensures FrameGroup(groups[1..][k], ids[1..][k]) {
      assert FrameGroup(groups[k + 1], ids[k + 1]);
    }
    forall k | 0 <= k < |ids| - 2 ensures ids[1..][k] != ids[1..][k + 1] {
      assert ids[k + 1] != ids[k + 2];
    }
  }

  /** The state after the first frame group of a stream. */
  function AfterFirstFrame(s: State, groups: seq<seq<Bytes>>, ids: seq<u32>): (r: State)
    requires s.Valid() && WellFormedStream(groups, ids)
    ensures r.Valid()
  {
    assert FrameGroup(groups[0], ids[0]);
    State(Some(Payloads(groups[0])), Some(ids[0]), s.frameCount + |Lead(s, groups[0][0])|)
  }

  /** A stream is its first frame group, then the rest. */
  lemma RunStreamHead(s: State, groups: seq<seq<Bytes>>, ids: seq<u32>)
    requires s.Valid() && WellFormedStream(groups, ids) && s.current != Some(ids[0])
    ensures
      var mid := AfterFirstFrame(s, groups, ids);
      var rest := Run(mid, Flatten(groups[1..]));
      Run(s, Flatten(groups)) == Session(rest.end, Lead(s, groups[0][0]) + rest.frames)
  {
    var g0 := groups[0];
    var tail := Flatten(groups[1..]);
    var mid := AfterFirstFrame(s, groups, ids);
    assert Run(s, g0) == Session(Running(mid), Lead(s, g0[0])) by {
      assert FrameGroup(g0, ids[0]);
      RunFrameGroup(s, g0, ids[0]);
    }
    assert Flatten(groups) == g0 + tail;
    RunAppend(s, g0, tail);
  }

  /**
   * The reassembler over a well-formed stream hands over exactly the
   * reference frames (after whatever the starting state still held), and
   * ends with the last frame in progress.
   */
  lemma {:induction false} RunWellFormedStream(s: State, groups: seq<seq<Bytes>>, ids: seq<u32>)
    requires s.Valid() && WellFormedStream(groups, ids) && s.current != Some(ids[0])
    ensures
      var r := Run(s, Flatten(groups));
      var lead := Lead(s, groups[0][0]);
      && r.frames == lead + CompletedFrames(groups, ids)
      && r.end == Running(State(Some(Payloads(groups[|groups| - 1])), Some(ids[|ids| - 1]), s.frameCount + |lead| + |groups| - 1))
    decreases |groups|
  {
    var lead := Lead(s, groups[0][0]);
    var mid := AfterFirstFrame(s, groups, ids);
    var tail := Flatten(groups[1..]);
    RunStreamHead(s, groups, ids);
    if |groups| == 1 {
      assert tail == [];
      assert lead + [] == lead;
    } else {
      WellFormedTail(groups, ids);
      assert FrameGroup(groups[1], ids[1]);
      RunWellFormedStream(mid, groups[1..], ids[1..]);
      var next := Obfuscation.Deobfuscate(Payloads(groups[0]), ids[0], groups[1][0][FrameTypeOffset]);
      assert Lead(mid, groups[1][0]) == [next];
      assert CompletedFrames(groups, ids) == [next] + CompletedFrames(groups[1..], ids[1..]);
      assert groups[1..][|groups| - 2] == groups[|groups| - 1];
      assert ids[1..][|ids| - 2] == ids[|ids| - 1];
    }
  }

  /** From the listener's start, a stream of n whole frames hands over the first n - 1, in order. */
  lemma RunFromStart(groups: seq<seq<Bytes>>, ids: seq<u32>)
    requires WellFormedStream(groups, ids)
    ensures Run(Initial, Flatten(groups)).frames == CompletedFrames(groups, ids)
    ensures |Run(Initial, Flatten(groups)).frames| == |groups| - 1
    ensures Run(Initial, Flatten(groups)).end ==
      Running(State(Some(Payloads(groups[|groups| - 1])), Some(ids[|ids| - 1]), |groups| - 1))
  {
    RunWellFormedStream(Initial, groups, ids);
    assert Lead(Initial, groups[0][0]) == [];
    CompletedFramesLength(groups, ids);
  }

  lemma {:induction false} CompletedFramesLength(groups: seq<seq<Bytes>>, ids: seq<u32>)
    requires WellFormedStream(groups, ids)
    ensures |CompletedFrames(groups, ids)| == |groups| - 1
    decreases |groups|
  {
    if |groups| > 1 {
      WellFormedTail(groups, ids);
      CompletedFramesLength(groups[1..], ids[1..]);
    }
  }

  /**
   * Key fragment and continuation of frame 1, then the key fragment of frame
   * 2: exactly one frame is handed over, the two payloads of frame 1 joined
   * and deobfuscated, and frame 2 is in progress.
   */
  lemma TwoFramesHandOverOne(k1: Bytes, c1: Bytes, k2: Bytes)
    requires KeyFragment(k1, 1) && Continuation(c1, 1) && KeyFragment(k2, 2)
    ensures Run(Initial, [k1, c1, k2]) == Session(
      Running(State(Some(FragmentPayload(k2)), Some(2), 1)),
      [Obfuscation.Deobfuscate(FragmentPayload(k1) + FragmentPayload(c1), 1, k2[FrameTypeOffset])])
  {
    var groups := [[k1, c1], [k2]];
    var ids: seq<u32> := [1, 2];
    var frame := Obfuscation.Deobfuscate(FragmentPayload(k1) + FragmentPayload(c1), 1, k2[FrameTypeOffset]);
    assert WellFormedStream(groups, ids) by {
      assert FrameGroup(groups[0], ids[0]);
      assert FrameGroup(groups[1], ids[1]);
    }
    assert Flatten(groups) == [k1, c1, k2] by {
      assert Flatten(groups[1..]) == [k2] + [];
    }
    assert Payloads(groups[1]) == FragmentPayload(k2) by {
      assert Payloads([k2]) == FragmentPayload(k2) + [];
    }
    assert CompletedFrames(groups, ids) == [frame] by {
      assert Payloads([k1, c1]) == FragmentPayload(k1) + FragmentPayload(c1) by {
        assert [k1, c1][1..] == [c1];
        assert Payloads([c1]) == FragmentPayload(c1) + Payloads([]);
      }
      WellFormedTail(groups, ids);
      assert CompletedFrames(groups[1..], ids[1..]) == [];
    }
    RunFromStart(groups, ids);
  }

}
