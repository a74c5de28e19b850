/** The synchronous loop of AExtractDecodeEditEncodeMuxTest
    (`doExtractDecodeEditEncodeMux`): each outer iteration extracts at most
    one video and one audio sample into the decoders, then drains at most one
    video decoder output, copying its payload to the output file. The loop
    runs while video is copied and the video decoder has not signalled end of
    stream. The encoders and the muxer are never driven by this loop: the
    encoder output formats stay unknown and muxing stays off, so the
    extraction gate is always open. What the codecs answer is a script, one
    entry per outer iteration. */
module PollingLoop {
  import opened Common
  import opened Feeder

  /** What `dequeueInputBuffer` answers: a free slot or INFO_TRY_AGAIN_LATER. */
  datatype InputSlot = NoSlot | Slot(index: nat)

  /** What `dequeueOutputBuffer` answers. */
  datatype OutputStatus =
    | TryAgainLater
    | OutputBuffersChanged
    | OutputFormatChanged
    | OutputBuffer(index: nat, info: BufferInfo)

  /** The answers the codecs would give in one outer iteration, were they asked. */
  datatype Iteration = Iteration(videoInput: InputSlot, audioInput: InputSlot, videoOutput: OutputStatus)

  datatype PollState = PollState(
    copyVideo: bool,
    copyAudio: bool,
    video: FeedState,
    audio: FeedState,
    videoDecoderDone: bool,
    videoDecoderFormatKnown: bool,
    videoEncoderFormatKnown: bool,
    audioEncoderFormatKnown: bool,
    muxing: bool,
    decoded: nat,
    log: seq<Action>,
    written: seq<int>)   // lengths of the payloads written to the output file

  function InitialPoll(copyVideo: bool, copyAudio: bool,
                       videoSource: seq<ExtractorRead>, audioSource: seq<ExtractorRead>): PollState {
    PollState(copyVideo, copyAudio, FeedState(false, 0, videoSource), FeedState(false, 0, audioSource),
              false, false, false, false, false, 0, [], [])
  }

  /** The outer loop's condition. */
  predicate Running(s: PollState) {
    s.copyVideo && !s.videoDecoderDone
  }

  /** Extraction and draining wait while an encoder format is known but muxing is off. */
  predicate VideoGate(s: PollState) {
    !s.videoEncoderFormatKnown || s.muxing
  }

  predicate AudioGate(s: PollState) {
    !s.audioEncoderFormatKnown || s.muxing
  }

  /** One pass of the extraction loop body, which always ends in `break`:
      one read, a submission when the size is non-negative, and an
      end-of-stream submission when `advance()` fails. */
  function ExtractOnce(kind: StreamKind, slot: int, f: FeedState): (r: FeedResult)
    ensures r.state.extracted == f.extracted + 1
    ensures r.state.extractorDone == !NextRead(f.source).advanced
    ensures r.state.source == Rest(f.source)
    ensures |r.actions| <= 2
    ensures forall i :: 0 <= i < |r.actions| ==> r.actions[i].Queue? && r.actions[i].codec == Decoder(kind) && r.actions[i].slot == slot
    // the sample is submitted as read, exactly when its size is non-negative
    ensures NextRead(f.source).size >= 0 <==>
              |r.actions| > 0 && r.actions[0] == Queue(Decoder(kind), slot, 0, NextRead(f.source).size, NextRead(f.source).pts, NextRead(f.source).flags)
    // exhaustion submits a zero-length end of stream with pts 0, last
    ensures r.state.extractorDone ==> |r.actions| > 0 && r.actions[|r.actions| - 1] == EosSubmission(kind, slot)
    ensures !r.state.extractorDone ==> |r.actions| <= 1
  {
    var rd := NextRead(f.source);
    var sample := if rd.size >= 0 then [Queue(Decoder(kind), slot, 0, rd.size, rd.pts, rd.flags)] else [];
    var eos := if !rd.advanced then [EosSubmission(kind, slot)] else [];
    FeedResult(FeedState(!rd.advanced, f.extracted + 1, Rest(f.source)), sample + eos)
  }

  /** The extraction loop of one stream in one outer iteration. */
  function FeedOnce(kind: StreamKind, copy: bool, gate: bool, input: InputSlot, f: FeedState): (r: FeedResult)
    // nothing is read unless the stream is copied, not exhausted, the gate is open and a slot is free
    ensures !(copy && !f.extractorDone && gate && input.Slot?) <==> r == FeedResult(f, [])
    ensures copy && !f.extractorDone && gate && input.Slot? ==> r == ExtractOnce(kind, input.index, f)
    // at most one sample per outer iteration
    ensures f.extracted <= r.state.extracted <= f.extracted + 1
    ensures f.extractorDone ==> r.state.extractorDone
  {
    if copy && !f.extractorDone && gate then
      match input
      case NoSlot => FeedResult(f, [])
      case Slot(i) => ExtractOnce(kind, i, f)
    else FeedResult(f, [])
  }

  /** Whether the payload copy reaches the file: the copy allocates `size`
      bytes and reads them into that array at index `offset`, so it throws
      (and the exception is swallowed) unless the size is positive and the
      offset is 0. */
  predicate PayloadWritten(info: BufferInfo) {
    info.size > 0 && info.offset == 0
  }

  /** The video decoder draining loop in one outer iteration. */
  function DrainVideo(s: PollState, out: OutputStatus): (t: PollState)
    ensures t.video == s.video && t.audio == s.audio
    ensures t.copyVideo == s.copyVideo && t.copyAudio == s.copyAudio && t.muxing == s.muxing
    ensures t.videoEncoderFormatKnown == s.videoEncoderFormatKnown && t.audioEncoderFormatKnown == s.audioEncoderFormatKnown
    // the decoder is not polled once done, and not when the gate is closed
    ensures !(Running(s) && VideoGate(s)) ==> t == s
    ensures out.OutputFormatChanged? ==> t.log == s.log && t.decoded == s.decoded
    // a codec-config buffer is released unrendered and not counted
    ensures Running(s) && VideoGate(s) && out.OutputBuffer? && IsCodecConfig(out.info.flags) ==>
              t == s.(log := s.log + [ReleaseOutput(Decoder(Video), out.index, false)])
    // any other buffer is released, rendered iff non-empty, and counted;
    // end of stream marks the decoder done
    ensures Running(s) && VideoGate(s) && out.OutputBuffer? && !IsCodecConfig(out.info.flags) ==>
              && t.log == s.log + [ReleaseOutput(Decoder(Video), out.index, out.info.size != 0)]
              && t.decoded == s.decoded + 1
              && t.videoDecoderDone == IsEos(out.info.flags)
              && t.written == s.written + (if PayloadWritten(out.info) then [out.info.size] else [])
    ensures !out.OutputBuffer? ==> t.log == s.log && t.decoded == s.decoded && t.written == s.written
    ensures s.videoDecoderDone ==> t.videoDecoderDone
  {
    if !(Running(s) && VideoGate(s)) then s
    else
      match out
      case TryAgainLater => s
      case OutputBuffersChanged => s
      case OutputFormatChanged => s.(videoDecoderFormatKnown := true)
      case OutputBuffer(i, info) =>
        if IsCodecConfig(info.flags) then
          s.(log := s.log + [ReleaseOutput(Decoder(Video), i, false)])
        else
          s.(log := s.log + [ReleaseOutput(Decoder(Video), i, info.size != 0)],
             written := s.written + (if PayloadWritten(info) then [info.size] else []),
             videoDecoderDone := IsEos(info.flags),
             decoded := s.decoded + 1)
  }

  /** One outer iteration: video extraction, audio extraction, video draining. */
  function Iterate(s: PollState, it: Iteration): (r: PollState)
    // each extraction loop and the draining loop end after at most one step
    ensures s.video.extracted <= r.video.extracted <= s.video.extracted + 1
    ensures s.audio.extracted <= r.audio.extracted <= s.audio.extracted + 1
    ensures s.decoded <= r.decoded <= s.decoded + 1
    // effects are only appended
    ensures IsPrefix(s.log, r.log)
    ensures r.copyVideo == s.copyVideo && r.copyAudio == s.copyAudio && r.muxing == s.muxing
  {
    var v := FeedOnce(Video, s.copyVideo, VideoGate(s), it.videoInput, s.video);
    var a := FeedOnce(Audio, s.copyAudio, AudioGate(s), it.audioInput, s.audio);
    var fed := s.(video := v.state, audio := a.state, log := s.log + v.actions + a.actions);
    var r := DrainVideo(fed, it.videoOutput);
    assert r.log == fed.log || r.log == fed.log + [r.log[|r.log| - 1]];
    assert r.log[..|s.log|] == s.log;
    r
  }

  datatype LoopResult = LoopResult(state: PollState, iterations: nat)

  /** The outer loop over the script `its`; it ends when the loop condition
      fails or the script runs out. */
  function Loop(s: PollState, its: seq<Iteration>): (r: LoopResult)
    ensures r.iterations <= |its|
    // the loop leaves early only because its condition failed
    ensures r.iterations < |its| ==> !Running(r.state)
    ensures !Running(s) ==> r == LoopResult(s, 0)
    decreases |its|
  {
    if !Running(s) || |its| == 0 then LoopResult(s, 0)
    else
      var r := Loop(Iterate(s, its[0]), its[1..]);
      LoopResult(r.state, r.iterations + 1)
  }

  /** The facts every reachable state keeps. */
  predicate PollInv(s: PollState) {
    && !s.videoEncoderFormatKnown && !s.audioEncoderFormatKnown && !s.muxing
    && CodecOnly(s.log)
    && |s.written| <= s.decoded
    && (forall i :: 0 <= i < |s.written| ==> s.written[i] > 0)
    && (s.videoDecoderDone ==> s.decoded > 0)
    && (!s.copyVideo ==> s.video.extracted == 0 && !s.videoDecoderDone && s.decoded == 0)
    && (!s.copyAudio ==> s.audio.extracted == 0)
  }

  lemma InitialPollInv(copyVideo: bool, copyAudio: bool, vs: seq<ExtractorRead>, as_: seq<ExtractorRead>)
    ensures PollInv(InitialPoll(copyVideo, copyAudio, vs, as_))
  {
  }

  /** Feeding both decoders only submits to codecs. */
  lemma FeedIsCodecOnly(s: PollState, it: Iteration)
    requires CodecOnly(s.log)
    ensures var v := FeedOnce(Video, s.copyVideo, VideoGate(s), it.videoInput, s.video);
            var a := FeedOnce(Audio, s.copyAudio, AudioGate(s), it.audioInput, s.audio);
            CodecOnly(s.log + v.actions + a.actions)
  {
    var v := FeedOnce(Video, s.copyVideo, VideoGate(s), it.videoInput, s.video);
    var a := FeedOnce(Audio, s.copyAudio, AudioGate(s), it.audioInput, s.audio);
    var l := s.log + v.actions + a.actions;
    forall i | 0 <= i < |l| ensures !IsMuxerAction(l[i]) {
      if i < |s.log| {
        assert l[i] == s.log[i];
      } else if i < |s.log| + |v.actions| {
        assert l[i] == v.actions[i - |s.log|];
      } else {
        assert l[i] == a.actions[i - |s.log| - |v.actions|];
      }
    }
  }

  /** Draining only releases decoder buffers. */
  lemma DrainIsCodecOnly(m: PollState, out: OutputStatus)
    requires CodecOnly(m.log)
    ensures CodecOnly(DrainVideo(m, out).log)
  {
    var t := DrainVideo(m, out);
    forall i | 0 <= i < |t.log| ensures !IsMuxerAction(t.log[i]) {
      if i < |m.log| {
        assert t.log[i] == m.log[i];
      }
    }
  }

  lemma IterateKeepsInv(s: PollState, it: Iteration)
    requires PollInv(s)
    ensures PollInv(Iterate(s, it))
    // the extraction gate never closes in this loop
    ensures VideoGate(Iterate(s, it)) && AudioGate(Iterate(s, it))
    ensures Iterate(s, it).decoded <= s.decoded + 1
    ensures Iterate(s, it).video.extracted <= s.video.extracted + 1
  {
    var v := FeedOnce(Video, s.copyVideo, VideoGate(s), it.videoInput, s.video);
    var a := FeedOnce(Audio, s.copyAudio, AudioGate(s), it.audioInput, s.audio);
    var m := s.(video := v.state, audio := a.state, log := s.log + v.actions + a.actions);
    FeedIsCodecOnly(s, it);
    DrainIsCodecOnly(m, it.videoOutput);
    assert Iterate(s, it) == DrainVideo(m, it.videoOutput);
  }

  /** The whole loop keeps the invariant; every pass counts at most one
      decoded frame and reads at most one video sample. */
  lemma {:induction false} LoopKeepsInv(s: PollState, its: seq<Iteration>)
    requires PollInv(s)
    ensures PollInv(Loop(s, its).state)
    ensures Loop(s, its).state.decoded <= s.decoded + Loop(s, its).iterations
    ensures Loop(s, its).state.video.extracted <= s.video.extracted + Loop(s, its).iterations
    decreases |its|
  {
    if Running(s) && |its| > 0 {
      IterateKeepsInv(s, its[0]);
      LoopKeepsInv(Iterate(s, its[0]), its[1..]);
    }
  }

  /** The loop performs no muxer operation at all and never opens the
      extraction gate's muxing branch. */
  lemma PollingNeverMuxes(copyVideo: bool, copyAudio: bool, vs: seq<ExtractorRead>, as_: seq<ExtractorRead>, its: seq<Iteration>)
    ensures var r := Loop(InitialPoll(copyVideo, copyAudio, vs, as_), its).state;
            CodecOnly(r.log) && !r.muxing
  {
    InitialPollInv(copyVideo, copyAudio, vs, as_);
    LoopKeepsInv(InitialPoll(copyVideo, copyAudio, vs, as_), its);
  }

  /** Without video nothing happens, not even audio extraction: the loop
      condition only looks at video. */
  lemma NoVideoNoWork(copyAudio: bool, vs: seq<ExtractorRead>, as_: seq<ExtractorRead>, its: seq<Iteration>)
    ensures Loop(InitialPoll(false, copyAudio, vs, as_), its) == LoopResult(InitialPoll(false, copyAudio, vs, as_), 0)
  {
  }

  /** A decoder output carrying end of stream ends the loop after the
      iteration that drained it. */
  lemma EosOutputEndsLoop(s: PollState, it: Iteration, rest: seq<Iteration>)
    requires Running(s) && VideoGate(s)
    requires it.videoOutput.OutputBuffer? && IsEos(it.videoOutput.info.flags) && !IsCodecConfig(it.videoOutput.info.flags)
    ensures Loop(s, [it] + rest) == LoopResult(Iterate(s, it), 1)
  {
    assert ([it] + rest)[0] == it && ([it] + rest)[1..] == rest;
  }

  predicate SubmitsTo(a: Action, c: Codec) {
    a.Queue? && a.codec == c
  }

  /** `log` extends `before` without submitting anything to the video decoder. */
  predicate SilentExtension(before: seq<Action>, log: seq<Action>) {
    && |before| <= |log| && log[..|before|] == before
    && forall i :: |before| <= i < |log| ==> !SubmitsTo(log[i], Decoder(Video))
  }

  lemma SilentExtensionTrans(x: seq<Action>, y: seq<Action>, z: seq<Action>)
    requires SilentExtension(x, y) && SilentExtension(y, z)
    ensures SilentExtension(x, z)
  {
    assert z[..|x|] == z[..|y|][..|x|];
  }

  /** Draining only ever releases. */
  lemma DrainIsSilent(s: PollState, out: OutputStatus)
    ensures SilentExtension(s.log, DrainVideo(s, out).log)
  {
    var t := DrainVideo(s, out);
    assert t.log[..|s.log|] == s.log;
  }

  /** Audio extraction only submits to the audio decoder. */
  lemma AudioFeedIsSilent(log: seq<Action>, a: FeedResult)
    requires forall i :: 0 <= i < |a.actions| ==> a.actions[i].Queue? && a.actions[i].codec == Decoder(Audio)
    ensures SilentExtension(log, log + a.actions)
  {
    assert (log + a.actions)[..|log|] == log;
  }

  /** One outer iteration is the two feeds followed by one drain. */
  lemma IterateUnfolds(s: PollState, it: Iteration)
    ensures var v := FeedOnce(Video, s.copyVideo, VideoGate(s), it.videoInput, s.video);
            var a := FeedOnce(Audio, s.copyAudio, AudioGate(s), it.audioInput, s.audio);
            Iterate(s, it) == DrainVideo(s.(video := v.state, audio := a.state, log := s.log + v.actions + a.actions), it.videoOutput)
  {
  }

  lemma ExhaustedIterationIsSilent(s: PollState, it: Iteration)
    requires s.video.extractorDone
    ensures Iterate(s, it).video == s.video
    ensures SilentExtension(s.log, Iterate(s, it).log)
  {
    var v := FeedOnce(Video, s.copyVideo, VideoGate(s), it.videoInput, s.video);
    var a := FeedOnce(Audio, s.copyAudio, AudioGate(s), it.audioInput, s.audio);
    assert v == FeedResult(s.video, []);
    assert s.log + v.actions + a.actions == s.log + a.actions;
    var m := s.(audio := a.state, log := s.log + a.actions);
    IterateUnfolds(s, it);
    AudioFeedIsSilent(s.log, a);
    DrainIsSilent(m, it.videoOutput);
    SilentExtensionTrans(s.log, m.log, Iterate(s, it).log);
  }

  /** An exhausted extractor never submits again. */
  lemma {:induction false} ExhaustedStaysSilent(s: PollState, its: seq<Iteration>)
    requires s.video.extractorDone
    ensures Loop(s, its).state.video == s.video
    ensures SilentExtension(s.log, Loop(s, its).state.log)
    decreases |its|
  {
    if Running(s) && |its| > 0 {
      var t := Iterate(s, its[0]);
      ExhaustedIterationIsSilent(s, its[0]);
      ExhaustedStaysSilent(t, its[1..]);
      SilentExtensionTrans(s.log, t.log, Loop(t, its[1..]).state.log);
    }
  }

  /** The polling feeder agrees with the callback feeder whenever its single
      read is usable: both submit the same actions and reach the same state. */
  lemma ExtractOnceAgreesWithFeeder(kind: StreamKind, slot: int, f: FeedState)
    requires !f.extractorDone
    requires NextRead(f.source).size >= 0 || !NextRead(f.source).advanced
    ensures ExtractOnce(kind, slot, f) == FeedDecoder(kind, slot, f)
  {
  }

  /** Unlike the callback feeder, a read of negative size here costs an
      outer iteration and submits nothing. */
  lemma NegativeReadWastesIteration(kind: StreamKind, slot: int, f: FeedState)
    requires |f.source| > 0 && f.source[0].size < 0 && f.source[0].advanced
    ensures ExtractOnce(kind, slot, f) == FeedResult(FeedState(false, f.extracted + 1, f.source[1..]), [])
  {
  }

  /** A payload with a non-zero offset is released as rendered but never
      reaches the file. */
  lemma OffsetPayloadIsNotWritten(s: PollState, index: nat, info: BufferInfo)
    requires Running(s) && VideoGate(s)
    requires !IsCodecConfig(info.flags) && info.size > 0 && info.offset != 0
    ensures DrainVideo(s, OutputBuffer(index, info)).written == s.written
    ensures DrainVideo(s, OutputBuffer(index, info)).log == s.log + [ReleaseOutput(Decoder(Video), index, true)]
  {
  }
}
