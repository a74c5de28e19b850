/** The encode loop of AEncodeAllKeyFrameTest.doEncodeDecodeVideoFromBuffer:
    every iteration offers the next test-pattern frame to the video encoder
    (all of them as key frames, after a sync-frame request, then one empty
    end-of-stream buffer) and drains one encoder output into the muxer,
    which is started on the encoder's first format change. The loop ends
    at the first output carrying end-of-stream. What `dequeueInputBuffer`
    and `dequeueOutputBuffer` answer is a script of inputs. */
module KeyFrameEncode {
  import opened Common
  import opened CodecSelection
  import opened FramePattern
  import opened Muxer

  const FRAME_RATE: int := 15
  const NUM_FRAMES: nat := 300

  /** MediaCodec.dequeueOutputBuffer status codes (Android platform constants). */
  const INFO_TRY_AGAIN_LATER: int := -1
  const INFO_OUTPUT_FORMAT_CHANGED: int := -2
  const INFO_OUTPUT_BUFFERS_CHANGED: int := -3

  // ---------------------------------------------------------------------
  // Presentation times

  /** Java `int` arithmetic wraps modulo 2^32 into [-2^31, 2^31). */
  function Wrap32(x: int): int {
    (x + 0x8000_0000) % 0x1_0000_0000 - 0x8000_0000
  }

  /** Java integer division truncates toward zero. */
  function JavaDiv(a: int, b: int): int
    requires b > 0
  {
    if a >= 0 then a / b else -((-a) / b)
  }

  /** `computePresentationTime`: the product frameIndex * 1000000 is an
      `int` product, so it wraps once the index passes 2147. */
  function ComputePresentationTime(frameIndex: int): (pts: int)
    // up to frame 2147 nothing wraps: frame i is shown at 132 + i * 10^6 / 15 microseconds
    ensures 0 <= frameIndex <= 2147 ==> pts == 132 + (frameIndex * 1000000) / FRAME_RATE
    // from frame 2148 on the product has wrapped to a negative value
    ensures frameIndex == 2148 ==> pts < 0
  {
    NoWrapBelow(frameIndex);
    132 + JavaDiv(Wrap32(frameIndex * 1000000), FRAME_RATE)
  }

  lemma NoWrapBelow(i: int)
    ensures 0 <= i <= 2147 ==> Wrap32(i * 1000000) == i * 1000000 >= 0
  {
    if 0 <= i <= 2147 {
      MulLe(i, 2147, 1000000);
    }
  }

  /** Consecutive frames are 1/15 s apart, rounded down to whole microseconds. */
  lemma PresentationTimeStep(i: int)
    requires 0 <= i < 2147
    ensures 66666 <= ComputePresentationTime(i + 1) - ComputePresentationTime(i) <= 66667
  {
    var a := i * 1000000;
    assert (i + 1) * 1000000 == a + 1000000;
  }

  /** The first frame is at 132 us and the times strictly increase over
      every frame the test submits, end-of-stream buffer included. */
  lemma {:induction false} PresentationTimeIncreasing(i: int, j: int)
    requires 0 <= i <= j <= NUM_FRAMES
    ensures ComputePresentationTime(0) == 132
    ensures ComputePresentationTime(i) + 66666 * (j - i) <= ComputePresentationTime(j)
    decreases j - i
  {
    if i < j {
      PresentationTimeStep(j - 1);
      PresentationTimeIncreasing(i, j - 1);
    }
  }

  // ---------------------------------------------------------------------
  // The loop

  /** What `dequeueInputBuffer` answers: no buffer, or a buffer slot of some capacity. */
  datatype InputBuffer = NoInputBuffer | InputBuffer(index: nat, capacity: int)

  /** What `dequeueOutputBuffer` answers: a status (negative codes are
      notifications, others a buffer slot) and the BufferInfo it fills in. */
  datatype EncoderOutput = EncoderOutput(status: int, info: BufferInfo)

  datatype EncodeIteration = EncodeIteration(input: InputBuffer, output: EncoderOutput)

  /** The loop's locals and the test's muxer fields, plus the effects so far. */
  datatype EncodeState = EncodeState(generateIndex: nat, inputDone: bool, encoderDone: bool,
                                     muxerStarted: bool, trackIndex: int, log: seq<Action>)

  /** Before the loop: `mTrackIndex = -1`, the muxer not started. */
  const Start: EncodeState := EncodeState(0, false, false, false, -1, [])

  const VideoEncoder: Codec := Encoder(Video)

  /** The input half of one iteration. While frames remain, a free buffer
      receives the next generated frame as a key frame, after a sync-frame
      request; once NUM_FRAMES frames went in, the next buffer carries an
      empty end-of-stream and input is done. */
  function SubmitInput(s: EncodeState, width: nat, height: nat, colorFormat: int, input: InputBuffer): (r: Result<EncodeState>)
    ensures s.inputDone || input.NoInputBuffer? ==> r == Ok(s)
    ensures r.Fail? ==> s.generateIndex != NUM_FRAMES
    ensures r.Fail? <==> (&& !s.inputDone && input.InputBuffer? && s.generateIndex != NUM_FRAMES
                          && (!IsRecognizedFormat(colorFormat) || input.capacity < FrameSize(width, height)))
    ensures r.Ok? ==> r.value.encoderDone == s.encoderDone && r.value.muxerStarted == s.muxerStarted
                      && r.value.trackIndex == s.trackIndex
    ensures r.Ok? && !s.inputDone && input.InputBuffer? ==> r.value.generateIndex == s.generateIndex + 1
    ensures r.Ok? ==> (r.value.inputDone <==> s.inputDone || (input.InputBuffer? && s.generateIndex == NUM_FRAMES))
    // after the last frame: one empty end-of-stream buffer at the next frame's time
    ensures r.Ok? && !s.inputDone && input.InputBuffer? && s.generateIndex == NUM_FRAMES ==>
              r.value.log == s.log + [Queue(VideoEncoder, input.index, 0, 0, ComputePresentationTime(NUM_FRAMES), BUFFER_FLAG_END_OF_STREAM)]
    // before it: a sync-frame request, then the whole frame as a key frame at its time
    ensures r.Ok? && !s.inputDone && input.InputBuffer? && s.generateIndex != NUM_FRAMES ==>
              r.value.log == s.log + [RequestSyncFrame(VideoEncoder),
                                      Queue(VideoEncoder, input.index, 0, FrameSize(width, height),
                                            ComputePresentationTime(s.generateIndex), BUFFER_FLAG_KEY_FRAME)]
  {
    if s.inputDone || input.NoInputBuffer? then Ok(s)
    else
      var pts := ComputePresentationTime(s.generateIndex);
      if s.generateIndex == NUM_FRAMES then
        Ok(s.(generateIndex := s.generateIndex + 1, inputDone := true,
              log := s.log + [Queue(VideoEncoder, input.index, 0, 0, pts, BUFFER_FLAG_END_OF_STREAM)]))
      else if !IsRecognizedFormat(colorFormat) then
        Fail(UnknownColorFormat(colorFormat))   // generateFrame throws
      else if input.capacity < FrameSize(width, height) then
        Fail(InputBufferTooSmall(input.capacity))
      else
        Ok(s.(generateIndex := s.generateIndex + 1,
              log := s.log + [RequestSyncFrame(VideoEncoder),
                              Queue(VideoEncoder, input.index, 0, FrameSize(width, height), pts, BUFFER_FLAG_KEY_FRAME)]))
  }

  /** The output half of one iteration. */
  function DrainEncoder(s: EncodeState, out: EncoderOutput): (r: Result<EncodeState>)
    requires !s.encoderDone
    // notifications: the format change starts the muxer once and fails the second time
    ensures out.status == INFO_TRY_AGAIN_LATER || out.status == INFO_OUTPUT_BUFFERS_CHANGED ==> r == Ok(s)
    ensures out.status == INFO_OUTPUT_FORMAT_CHANGED ==>
              (s.muxerStarted ==> r == Fail(FormatChangedTwice)) &&
              (!s.muxerStarted ==> r.Ok? && r.value.muxerStarted && r.value.log == s.log + [AddTrack(Video), StartMuxer])
    ensures out.status < 0 && out.status !in {INFO_TRY_AGAIN_LATER, INFO_OUTPUT_FORMAT_CHANGED, INFO_OUTPUT_BUFFERS_CHANGED} ==>
              r == Fail(UnexpectedEncoderStatus(out.status))
    // buffers: a non-empty one before the muxer started fails
    ensures out.status >= 0 ==>
              (r.Fail? <==> !s.muxerStarted && !IsCodecConfig(out.info.flags) && out.info.size != 0)
    ensures out.status >= 0 && r.Ok? ==>
              && r.value.encoderDone == IsEos(out.info.flags)
              && |r.value.log| > 0
              && r.value.log[|r.value.log| - 1] == ReleaseOutput(VideoEncoder, out.status, false)
    // codec-config data and empty buffers are never written
    ensures out.status >= 0 && r.Ok? && (IsCodecConfig(out.info.flags) || out.info.size == 0) ==>
              r.value.log == s.log + [ReleaseOutput(VideoEncoder, out.status, false)]
    ensures out.status >= 0 && r.Ok? && !IsCodecConfig(out.info.flags) && out.info.size != 0 ==>
              r.value.log == s.log + [WriteSample(s.trackIndex, out.info.size, out.info.pts),
                                      ReleaseOutput(VideoEncoder, out.status, false)]
    ensures r.Ok? ==> r.value.generateIndex == s.generateIndex && r.value.inputDone == s.inputDone
    ensures r.Ok? && out.status != INFO_OUTPUT_FORMAT_CHANGED ==>
              r.value.muxerStarted == s.muxerStarted && r.value.trackIndex == s.trackIndex
  {
    if out.status == INFO_TRY_AGAIN_LATER || out.status == INFO_OUTPUT_BUFFERS_CHANGED then Ok(s)
    else if out.status == INFO_OUTPUT_FORMAT_CHANGED then
      if s.muxerStarted then Fail(FormatChangedTwice)
      // the first track of a fresh muxer gets index 0
      else Ok(s.(trackIndex := 0, muxerStarted := true, log := s.log + [AddTrack(Video), StartMuxer]))
    else if out.status < 0 then Fail(UnexpectedEncoderStatus(out.status))
    else
      var size := if IsCodecConfig(out.info.flags) then 0 else out.info.size;
      if size != 0 && !s.muxerStarted then Fail(MuxerNotStarted)
      else
        var written := if size != 0 then [WriteSample(s.trackIndex, size, out.info.pts)] else [];
        Ok(s.(encoderDone := IsEos(out.info.flags),
              log := s.log + written + [ReleaseOutput(VideoEncoder, out.status, false)]))
  }

  /** One pass of the loop body: input first, then output. */
  function EncodeStep(s: EncodeState, width: nat, height: nat, colorFormat: int, it: EncodeIteration): (r: Result<EncodeState>)
    requires !s.encoderDone
    // the input half's effects come first, and only the output half can end the loop
    ensures r.Ok? ==> && SubmitInput(s, width, height, colorFormat, it.input).Ok?
                      && IsPrefix(SubmitInput(s, width, height, colorFormat, it.input).value.log, r.value.log)
                      && IsPrefix(s.log, r.value.log)
    ensures r.Ok? ==> r.value.encoderDone == (it.output.status >= 0 && IsEos(it.output.info.flags))
    ensures r.Ok? ==> r.value.generateIndex == s.generateIndex + (if !s.inputDone && it.input.InputBuffer? then 1 else 0)
  {
    match SubmitInput(s, width, height, colorFormat, it.input)
    case Fail(e) => Fail(e)
    case Ok(s1) => DrainEncoder(s1, it.output)
  }

  datatype EncodeRun = EncodeRun(state: EncodeState, iterations: nat)

  /** The loop over a script of codec answers; it leaves at the first
      output carrying end-of-stream, or when the script ends. */
  function EncodeLoop(s: EncodeState, width: nat, height: nat, colorFormat: int, its: seq<EncodeIteration>): (r: Result<EncodeRun>)
    ensures r.Ok? ==> r.value.iterations <= |its|
    ensures r.Ok? && r.value.iterations < |its| ==> r.value.state.encoderDone
    ensures r.Ok? && !s.encoderDone ==> !r.value.state.encoderDone ==> r.value.iterations == |its|
    decreases |its|
  {
    if s.encoderDone || |its| == 0 then Ok(EncodeRun(s, 0))
    else
      match EncodeStep(s, width, height, colorFormat, its[0])
      case Fail(e) => Fail(e)
      case Ok(t) =>
        match EncodeLoop(t, width, height, colorFormat, its[1..])
        case Fail(e) => Fail(e)
        case Ok(run) => Ok(EncodeRun(run.state, run.iterations + 1))
  }

  // ---------------------------------------------------------------------
  // What goes into the encoder

  /** The payload size, time stamp and flags of one queued input buffer. */
  datatype Submission = Submission(size: int, pts: int, flags: bv32)

  /** The buffers `log` queues, in order. */
  function Submissions(log: seq<Action>): seq<Submission> {
    if |log| == 0 then []
    else
      var a := log[|log| - 1];
      Submissions(log[..|log| - 1]) + (if a.Queue? then [Submission(a.size, a.pts, a.flags)] else [])
  }

  lemma SubmissionsSnoc(log: seq<Action>, a: Action)
    ensures Submissions(log + [a]) == Submissions(log) + (if a.Queue? then [Submission(a.size, a.pts, a.flags)] else [])
  {
    assert (log + [a])[..|log|] == log;
  }

  /** The first `n` frames, whole, as key frames at their presentation times. */
  function Frames(n: nat, frameSize: nat): (r: seq<Submission>)
    ensures |r| == n
  {
    seq(n, j => Submission(frameSize, ComputePresentationTime(j), BUFFER_FLAG_KEY_FRAME))
  }

  /** The end-of-stream buffer: empty, at the time of frame NUM_FRAMES. */
  const EosSubmission: Submission := Submission(0, ComputePresentationTime(NUM_FRAMES), BUFFER_FLAG_END_OF_STREAM)

  /** What the encoder has received after `generateIndex` input buffers. */
  function Schedule(generateIndex: nat, frameSize: nat): seq<Submission> {
    if generateIndex <= NUM_FRAMES then Frames(generateIndex, frameSize)
    else Frames(NUM_FRAMES, frameSize) + [EosSubmission]
  }

  /** Every queued buffer other than the end-of-stream one directly follows
      a sync-frame request, so the encoder is asked for a key frame each time. */
  predicate SyncedFrames(log: seq<Action>) {
    forall i :: 0 <= i < |log| && log[i].Queue? && !IsEos(log[i].flags) ==>
      0 < i && log[i - 1] == RequestSyncFrame(VideoEncoder)
  }

  lemma SyncedAppend(log: seq<Action>, extra: seq<Action>)
    requires SyncedFrames(log) && SyncedFrames(extra)
    ensures SyncedFrames(log + extra)
  {
    var l := log + extra;
    forall i | 0 <= i < |l| && l[i].Queue? && !IsEos(l[i].flags)
      ensures 0 < i && l[i - 1] == RequestSyncFrame(VideoEncoder)
    {
      if i >= |log| {
        var j := i - |log|;
        assert l[i] == extra[j];
        assert l[i - 1] == extra[j - 1];
      }
    }
  }

  /** What holds between iterations of the loop. */
  predicate EncodeInv(s: EncodeState, width: nat, height: nat) {
    && SyncedFrames(s.log)
    && s.generateIndex <= NUM_FRAMES + 1
    && (s.inputDone <==> s.generateIndex == NUM_FRAMES + 1)
    && Submissions(s.log) == Schedule(s.generateIndex, FrameSize(width, height))
    && MuxerRun(Fresh, s.log) == (if s.muxerStarted then Started(1) else Configuring(0))
    && (s.muxerStarted ==> s.trackIndex == 0)
  }

  lemma StartInv(width: nat, height: nat)
    ensures EncodeInv(Start, width, height)
  {
  }

  /** The muxer's state after two more actions. */
  lemma MuxerRunPair(log: seq<Action>, a: Action, b: Action)
    ensures MuxerRun(Fresh, log + [a, b]) == MuxerStep(MuxerStep(MuxerRun(Fresh, log), a), b)
  {
    assert (log + [a, b])[..|log| + 1] == log + [a];
    assert (log + [a])[..|log|] == log;
  }

  lemma MuxerRunOne(log: seq<Action>, a: Action)
    ensures MuxerRun(Fresh, log + [a]) == MuxerStep(MuxerRun(Fresh, log), a)
  {
    assert (log + [a])[..|log|] == log;
  }

  lemma FramesSnoc(n: nat, frameSize: nat)
    ensures Frames(n + 1, frameSize) == Frames(n, frameSize) + [Submission(frameSize, ComputePresentationTime(n), BUFFER_FLAG_KEY_FRAME)]
  {
    assert Frames(n + 1, frameSize)[..n] == Frames(n, frameSize);
  }

  lemma SubmitInputKeepsInv(s: EncodeState, width: nat, height: nat, colorFormat: int, input: InputBuffer)
    requires EncodeInv(s, width, height)
    requires SubmitInput(s, width, height, colorFormat, input).Ok?
    ensures EncodeInv(SubmitInput(s, width, height, colorFormat, input).value, width, height)
  {
    if !s.inputDone && input.InputBuffer? {
      var pts := ComputePresentationTime(s.generateIndex);
      if s.generateIndex == NUM_FRAMES {
        var q := Queue(VideoEncoder, input.index, 0, 0, pts, BUFFER_FLAG_END_OF_STREAM);
        SubmissionsSnoc(s.log, q);
        MuxerRunOne(s.log, q);
        SyncedAppend(s.log, [q]);
      } else {
        FrameSubmissionKeepsInv(s, width, height, input.index);
      }
    }
  }

  /** Submitting the next frame, after its sync-frame request, keeps the invariant. */
  lemma FrameSubmissionKeepsInv(s: EncodeState, width: nat, height: nat, index: int)
    requires EncodeInv(s, width, height) && !s.inputDone && s.generateIndex != NUM_FRAMES
    ensures var q := Queue(VideoEncoder, index, 0, FrameSize(width, height), ComputePresentationTime(s.generateIndex), BUFFER_FLAG_KEY_FRAME);
            EncodeInv(s.(generateIndex := s.generateIndex + 1, log := s.log + [RequestSyncFrame(VideoEncoder), q]), width, height)
  {
    var n := s.generateIndex;
    var q := Queue(VideoEncoder, index, 0, FrameSize(width, height), ComputePresentationTime(n), BUFFER_FLAG_KEY_FRAME);
    var sync := RequestSyncFrame(VideoEncoder);
    assert n < NUM_FRAMES;
    FrameSubmissionQueuesFrame(s.log, n, FrameSize(width, height), q);
    MuxerRunPair(s.log, sync, q);
    SyncedAppend(s.log, [sync, q]);
  }

  lemma FrameSubmissionQueuesFrame(log: seq<Action>, n: nat, frameSize: nat, q: Action)
    requires n < NUM_FRAMES && Submissions(log) == Frames(n, frameSize)
    requires q.Queue? && q.size == frameSize && q.pts == ComputePresentationTime(n) && q.flags == BUFFER_FLAG_KEY_FRAME
    ensures Submissions(log + [RequestSyncFrame(VideoEncoder), q]) == Schedule(n + 1, frameSize)
  {
    var sync := RequestSyncFrame(VideoEncoder);
    assert log + [sync, q] == log + [sync] + [q];
    SubmissionsSnoc(log, sync);
    SubmissionsSnoc(log + [sync], q);
    FramesSnoc(n, frameSize);
  }

  /** Appending actions other than queued buffers adds no submission. */
  lemma SubmissionsPair(log: seq<Action>, a: Action, b: Action)
    requires !a.Queue? && !b.Queue?
    ensures Submissions(log + [a, b]) == Submissions(log)
  {
    assert log + [a, b] == log + [a] + [b];
    SubmissionsSnoc(log, a);
    SubmissionsSnoc(log + [a], b);
  }

  lemma DrainEncoderKeepsInv(s: EncodeState, width: nat, height: nat, out: EncoderOutput)
    requires !s.encoderDone && EncodeInv(s, width, height)
    requires DrainEncoder(s, out).Ok?
    ensures EncodeInv(DrainEncoder(s, out).value, width, height)
  {
    if out.status == INFO_OUTPUT_FORMAT_CHANGED {
      SubmissionsPair(s.log, AddTrack(Video), StartMuxer);
      MuxerRunPair(s.log, AddTrack(Video), StartMuxer);
      SyncedAppend(s.log, [AddTrack(Video), StartMuxer]);
    } else if out.status >= 0 {
      DrainBufferKeepsInv(s, width, height, out);
    }
  }

  lemma DrainBufferKeepsInv(s: EncodeState, width: nat, height: nat, out: EncoderOutput)
    requires !s.encoderDone && EncodeInv(s, width, height)
    requires out.status >= 0 && DrainEncoder(s, out).Ok?
    ensures EncodeInv(DrainEncoder(s, out).value, width, height)
  {
    var t := DrainEncoder(s, out).value;
    var rel := ReleaseOutput(VideoEncoder, out.status, false);
    if IsCodecConfig(out.info.flags) || out.info.size == 0 {
      assert t.log == s.log + [rel];
      SubmissionsSnoc(s.log, rel);
      MuxerRunOne(s.log, rel);
      SyncedAppend(s.log, [rel]);
    } else {
      var w := WriteSample(s.trackIndex, out.info.size, out.info.pts);
      assert t.log == s.log + [w, rel];
      SubmissionsPair(s.log, w, rel);
      MuxerRunPair(s.log, w, rel);
      SyncedAppend(s.log, [w, rel]);
    }
  }

  lemma EncodeStepKeepsInv(s: EncodeState, width: nat, height: nat, colorFormat: int, it: EncodeIteration)
    requires !s.encoderDone && EncodeInv(s, width, height)
    requires EncodeStep(s, width, height, colorFormat, it).Ok?
    ensures EncodeInv(EncodeStep(s, width, height, colorFormat, it).value, width, height)
  {
    SubmitInputKeepsInv(s, width, height, colorFormat, it.input);
    DrainEncoderKeepsInv(SubmitInput(s, width, height, colorFormat, it.input).value, width, height, it.output);
  }

  lemma {:induction false} EncodeLoopKeepsInv(s: EncodeState, width: nat, height: nat, colorFormat: int, its: seq<EncodeIteration>)
    requires EncodeInv(s, width, height)
    requires EncodeLoop(s, width, height, colorFormat, its).Ok?
    ensures EncodeInv(EncodeLoop(s, width, height, colorFormat, its).value.state, width, height)
    decreases |its|
  {
    if !s.encoderDone && |its| > 0 {
      EncodeStepKeepsInv(s, width, height, colorFormat, its[0]);
      EncodeLoopKeepsInv(EncodeStep(s, width, height, colorFormat, its[0]).value, width, height, colorFormat, its[1..]);
    }
  }

  /** Whatever the codec answers, a run that does not fail has queued the
      first frames in order, each whole, as a key frame at its presentation
      time, and once input is done exactly NUM_FRAMES of them followed by
      one empty end-of-stream buffer and nothing after it. Its muxer use
      is legal: started once, one track, writes only after the start. */
  lemma EncodeRunShape(width: nat, height: nat, colorFormat: int, its: seq<EncodeIteration>)
    requires EncodeLoop(Start, width, height, colorFormat, its).Ok?
    ensures var t := EncodeLoop(Start, width, height, colorFormat, its).value.state;
      && Submissions(t.log) == Schedule(t.generateIndex, FrameSize(width, height))
      && (t.inputDone ==> Submissions(t.log) == Frames(NUM_FRAMES, FrameSize(width, height)) + [EosSubmission])
      && (!t.inputDone ==> |Submissions(t.log)| <= NUM_FRAMES && forall k :: 0 <= k < |Submissions(t.log)| ==> !IsEos(Submissions(t.log)[k].flags))
      && WellUsed(t.log)
      && (t.muxerStarted <==> StartMuxer in t.log)
      && SyncedFrames(t.log)
  {
    StartInv(width, height);
    EncodeLoopKeepsInv(Start, width, height, colorFormat, its);
    var t := EncodeLoop(Start, width, height, colorFormat, its).value.state;
    StartedIffStartLogged(t.log);
  }

  /** An output buffer carrying end-of-stream ends the loop at once. */
  lemma EosOutputEndsEncodeLoop(s: EncodeState, width: nat, height: nat, colorFormat: int,
                                it: EncodeIteration, rest: seq<EncodeIteration>)
    requires !s.encoderDone && it.output.status >= 0 && IsEos(it.output.info.flags)
    requires EncodeStep(s, width, height, colorFormat, it).Ok?
    ensures EncodeLoop(s, width, height, colorFormat, [it] + rest)
              == Ok(EncodeRun(EncodeStep(s, width, height, colorFormat, it).value, 1))
  {
    assert ([it] + rest)[0] == it;
    assert ([it] + rest)[1..] == rest;
  }
}
