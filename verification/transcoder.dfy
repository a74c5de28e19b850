/** The callback-driven transcoder of ATranscodeTest
    (`extractDecodeEditEncodeMux` with its codec callbacks, `setupMuxer`,
    `muxVideo`/`muxAudio` and `awaitEncode`). Codec callbacks are events;
    the model applies them one at a time, in any order the codecs choose. */
module Transcoder {
  import opened Common
  import opened Feeder
  import opened Pairing
  import opened Muxer

  /** Everything the test keeps for one stream. */
  datatype Stream = Stream(
    feed: FeedState,              // extractor done flag, extracted count, remaining samples
    decoderDone: bool,            // set when an EOS decoder output is paired
    encoderDone: bool,            // set when an EOS encoder output is muxed
    queues: Queues,               // pending decoder outputs and free encoder input slots
    encoderOutputs: seq<Pending>, // encoder outputs held back until the muxer starts
    decoded: nat,                 // non-config decoder outputs received
    encoded: nat,                 // non-config encoder outputs muxed
    formatKnown: bool,            // the encoder has reported its output format
    track: int)                   // muxer track, -1 until assigned

  function InitialStream(source: seq<ExtractorRead>): Stream {
    Stream(FeedState(false, 0, source), false, false, Queues([], []), [], 0, 0, false, -1)
  }

  datatype Coordinator = Coordinator(
    copyVideo: bool, copyAudio: bool,
    video: Stream, audio: Stream,
    muxing: bool,
    log: seq<Action>)

  /** The state set up before `awaitEncode`: counters zero, flags false, tracks -1. */
  function Init(copyVideo: bool, copyAudio: bool, videoSource: seq<ExtractorRead>, audioSource: seq<ExtractorRead>): Coordinator {
    Coordinator(copyVideo, copyAudio, InitialStream(videoSource), InitialStream(audioSource), false, [])
  }

  function Copies(c: Coordinator, kind: StreamKind): bool {
    if kind == Video then c.copyVideo else c.copyAudio
  }

  function StreamOf(c: Coordinator, kind: StreamKind): Stream {
    if kind == Video then c.video else c.audio
  }

  function WithStream(c: Coordinator, kind: StreamKind, s: Stream): (r: Coordinator)
    ensures StreamOf(r, kind) == s && StreamOf(r, Other(kind)) == StreamOf(c, Other(kind))
    ensures r.copyVideo == c.copyVideo && r.copyAudio == c.copyAudio && r.muxing == c.muxing && r.log == c.log
  {
    if kind == Video then c.(video := s) else c.(audio := s)
  }

  function Other(kind: StreamKind): StreamKind {
    if kind == Video then Audio else Video
  }

  /** The codec callbacks. `CodecError` stands for `onError`, which every
      codec of the test ignores. */
  datatype Event =
    | DecoderInputAvailable(kind: StreamKind, slot: int)
    | DecoderOutputAvailable(kind: StreamKind, slot: int, info: BufferInfo)
    | DecoderFormatChanged(kind: StreamKind)
    | EncoderInputAvailable(kind: StreamKind, slot: int)
    | EncoderOutputAvailable(kind: StreamKind, slot: int, info: BufferInfo)
    | EncoderFormatChanged(kind: StreamKind)
    | CodecError(kind: StreamKind)

  /** Only the codecs of copied streams exist, so only they call back. */
  predicate Enabled(c: Coordinator, e: Event) {
    Copies(c, e.kind)
  }

  /** `s2` differs from `s1` at most in what muxing changes: the held-back
      outputs, the encoded count and the encoder's done flag, which is never
      reset. */
  predicate DownstreamOnly(s1: Stream, s2: Stream) {
    && s2.feed == s1.feed && s2.decoderDone == s1.decoderDone && s2.queues == s1.queues
    && s2.decoded == s1.decoded && s2.formatKnown == s1.formatKnown
    && (s1.encoderDone ==> s2.encoderDone)
  }

  /** `muxVideo` / `muxAudio`. */
  function Mux(c: Coordinator, kind: StreamKind, p: Pending): (r: Coordinator)
    ensures r.copyVideo == c.copyVideo && r.copyAudio == c.copyAudio && r.muxing == c.muxing
    ensures StreamOf(r, Other(kind)) == StreamOf(c, Other(kind))
    ensures DownstreamOnly(StreamOf(c, kind), StreamOf(r, kind)) && StreamOf(r, kind).track == StreamOf(c, kind).track
    ensures IsPrefix(c.log, r.log)
    // before the muxer starts the output is held back, in arrival order
    ensures !c.muxing ==> r.log == c.log
                          && StreamOf(r, kind) == StreamOf(c, kind).(encoderOutputs := StreamOf(c, kind).encoderOutputs + [p])
    // a codec-config output is only released
    ensures c.muxing && IsCodecConfig(p.info.flags) ==>
              r.log == c.log + [ReleaseOutput(Encoder(kind), p.slot, false)] && StreamOf(r, kind) == StreamOf(c, kind)
    // any other output is written (when non-empty) to the stream's track, released and counted
    ensures c.muxing && !IsCodecConfig(p.info.flags) ==>
              && |r.log| > |c.log|
              && (WriteSample(StreamOf(c, kind).track, p.info.size, p.info.pts) in r.log[|c.log|..] <==> p.info.size != 0)
              && r.log[|r.log| - 1] == ReleaseOutput(Encoder(kind), p.slot, false)
              && StreamOf(r, kind).encoded == StreamOf(c, kind).encoded + 1
              && StreamOf(r, kind).encoderDone == (StreamOf(c, kind).encoderDone || IsEos(p.info.flags))
              && StreamOf(r, kind).encoderOutputs == StreamOf(c, kind).encoderOutputs
  {
    var s := StreamOf(c, kind);
    if !c.muxing then
      WithStream(c, kind, s.(encoderOutputs := s.encoderOutputs + [p]))
    else if IsCodecConfig(p.info.flags) then
      c.(log := c.log + [ReleaseOutput(Encoder(kind), p.slot, false)])
    else
      WriteOut(c, kind, p)
  }

  /** The muxing half of `muxVideo` / `muxAudio` for an output that is not codec config. */
  function WriteOut(c: Coordinator, kind: StreamKind, p: Pending): (r: Coordinator)
    requires !IsCodecConfig(p.info.flags)
    ensures r.copyVideo == c.copyVideo && r.copyAudio == c.copyAudio && r.muxing == c.muxing
    ensures StreamOf(r, Other(kind)) == StreamOf(c, Other(kind))
    ensures DownstreamOnly(StreamOf(c, kind), StreamOf(r, kind)) && StreamOf(r, kind).track == StreamOf(c, kind).track
    ensures r.log == c.log + MuxActions(kind, StreamOf(c, kind).track, p)
    ensures WriteSample(StreamOf(c, kind).track, p.info.size, p.info.pts) in r.log[|c.log|..] <==> p.info.size != 0
    ensures StreamOf(r, kind).encoded == StreamOf(c, kind).encoded + 1
    ensures StreamOf(r, kind).encoderDone == (StreamOf(c, kind).encoderDone || IsEos(p.info.flags))
    ensures StreamOf(r, kind).encoderOutputs == StreamOf(c, kind).encoderOutputs
  {
    var s := StreamOf(c, kind);
    var acts := MuxActions(kind, s.track, p);
    var s' := s.(encoded := s.encoded + 1, encoderDone := s.encoderDone || IsEos(p.info.flags));
    var r := WithStream(c, kind, s').(log := c.log + acts);
    assert r.log[|c.log|..] == acts;
    r
  }

  /** The effects of muxing one encoder output of stream `kind` once the
      muxer runs: a write to `track` unless the output is codec config or
      empty, then the output's release. */
  function MuxActions(kind: StreamKind, track: int, p: Pending): seq<Action> {
    (if !IsCodecConfig(p.info.flags) && p.info.size != 0 then [WriteSample(track, p.info.size, p.info.pts)] else [])
    + [ReleaseOutput(Encoder(kind), p.slot, false)]
  }

  /** The effects of muxing the held-back outputs `ps`, one after the other in queue order. */
  function FlushLog(kind: StreamKind, track: int, ps: seq<Pending>): seq<Action>
    decreases |ps|
  {
    if |ps| == 0 then [] else MuxActions(kind, track, ps[0]) + FlushLog(kind, track, ps[1..])
  }

  /** The number of outputs among `ps` that are not codec config, each of which the encoded count records. */
  function MediaOutputs(ps: seq<Pending>): nat
    decreases |ps|
  {
    if |ps| == 0 then 0 else (if IsCodecConfig(ps[0].info.flags) then 0 else 1) + MediaOutputs(ps[1..])
  }

  /** The flush loops of `setupMuxer`: mux the held-back outputs in order. */
  function MuxAll(c: Coordinator, kind: StreamKind, ps: seq<Pending>): (r: Coordinator)
    ensures r.copyVideo == c.copyVideo && r.copyAudio == c.copyAudio && r.muxing == c.muxing
    ensures StreamOf(r, Other(kind)) == StreamOf(c, Other(kind))
    ensures DownstreamOnly(StreamOf(c, kind), StreamOf(r, kind)) && StreamOf(r, kind).track == StreamOf(c, kind).track
    ensures IsPrefix(c.log, r.log)
    decreases |ps|
  {
    if |ps| == 0 then c else MuxAll(Mux(c, kind, ps[0]), kind, ps[1..])
  }

  /** Once the muxer runs, muxing one output logs exactly its own effects and counts it unless it is codec config. */
  lemma MuxLog(c: Coordinator, kind: StreamKind, p: Pending)
    requires c.muxing
    ensures Mux(c, kind, p).log == c.log + MuxActions(kind, StreamOf(c, kind).track, p)
    ensures StreamOf(Mux(c, kind, p), kind).encoded == StreamOf(c, kind).encoded + (if IsCodecConfig(p.info.flags) then 0 else 1)
  {
    if !IsCodecConfig(p.info.flags) {
      assert Mux(c, kind, p) == WriteOut(c, kind, p);
    }
  }

  /** Once the muxer runs, flushing writes every held-back output that is
      neither codec config nor empty to the stream's track and releases
      each, in queue order, counting every output that is not codec config. */
  lemma {:induction false} MuxAllFlushes(c: Coordinator, kind: StreamKind, ps: seq<Pending>)
    requires c.muxing
    ensures var r := MuxAll(c, kind, ps);
            && r.log == c.log + FlushLog(kind, StreamOf(c, kind).track, ps)
            && StreamOf(r, kind).encoded == StreamOf(c, kind).encoded + MediaOutputs(ps)
            && StreamOf(r, kind).encoderOutputs == StreamOf(c, kind).encoderOutputs
    decreases |ps|
  {
    if |ps| > 0 {
      var c1 := Mux(c, kind, ps[0]);
      var t := StreamOf(c, kind).track;
      MuxLog(c, kind, ps[0]);
      assert c1.muxing && StreamOf(c1, kind).track == t;
      MuxAllFlushes(c1, kind, ps[1..]);
      var r := MuxAll(c1, kind, ps[1..]);
      assert MuxAll(c, kind, ps) == r;
      assert FlushLog(kind, t, ps) == MuxActions(kind, t, ps[0]) + FlushLog(kind, t, ps[1..]);
      assert r.log == c.log + MuxActions(kind, t, ps[0]) + FlushLog(kind, t, ps[1..]);
    }
  }

  /** Before the muxer runs, every output is held back, in order, and nothing is logged. */
  lemma {:induction false} MuxAllHoldsBack(c: Coordinator, kind: StreamKind, ps: seq<Pending>)
    requires !c.muxing
    ensures var r := MuxAll(c, kind, ps);
            r.log == c.log && StreamOf(r, kind).encoderOutputs == StreamOf(c, kind).encoderOutputs + ps
    decreases |ps|
  {
    if |ps| > 0 {
      MuxAllHoldsBack(Mux(c, kind, ps[0]), kind, ps[1..]);
      assert StreamOf(c, kind).encoderOutputs + ps == StreamOf(c, kind).encoderOutputs + [ps[0]] + ps[1..];
    }
  }

  /** The muxer can start once every copied stream's encoder has reported its format. */
  predicate ReadyToMux(c: Coordinator) {
    !c.muxing && (!c.copyAudio || c.audio.formatKnown) && (!c.copyVideo || c.video.formatKnown)
  }

  /** The `addTrack` calls of `setupMuxer`: video first, then audio, each only when copied. */
  function TrackAdds(c: Coordinator): seq<Action> {
    (if c.copyVideo then [AddTrack(Video)] else []) + (if c.copyAudio then [AddTrack(Audio)] else [])
  }

  /** The first half of `setupMuxer`: add the video track, then the audio
      track, and start the muxer. Muxer track indices are handed out in call
      order, so video gets 0 and audio gets the next one. */
  function StartMuxing(c: Coordinator): (r: Coordinator)
    ensures r.copyVideo == c.copyVideo && r.copyAudio == c.copyAudio && r.muxing
    ensures r.log == c.log + TrackAdds(c) + [StartMuxer]
    ensures DownstreamOnly(c.video, r.video) && DownstreamOnly(c.audio, r.audio)
    ensures |r.video.encoderOutputs| == 0 && |r.audio.encoderOutputs| == 0
    ensures c.copyVideo ==> r.video.track == AssignedTrack(r, Video)
    ensures c.copyAudio ==> r.audio.track == AssignedTrack(r, Audio)
    ensures !c.copyVideo ==> r.video.track == c.video.track
    ensures !c.copyAudio ==> r.audio.track == c.audio.track
    // from a muxer that is still fresh this is a legal start with one track per copied stream
    ensures MuxerRun(Fresh, c.log) == Fresh ==> MuxerRun(Fresh, r.log) == Started(TrackCount(c))
  {
    var vt := if c.copyVideo then [AddTrack(Video)] else [];
    var at := if c.copyAudio then [AddTrack(Audio)] else [];
    var tail := vt + at + [StartMuxer];
    var r := c.(video := c.video.(track := if c.copyVideo then 0 else c.video.track, encoderOutputs := []),
                audio := c.audio.(track := if c.copyAudio then |vt| else c.audio.track, encoderOutputs := []),
                muxing := true,
                log := c.log + tail);
    MuxerRunAppend(Fresh, c.log, tail);
    assert MuxerRun(Fresh, vt) == Configuring(|vt|) by {
      if |vt| == 1 { assert vt[..0] == []; }
    }
    MuxerRunAppend(Fresh, vt, at);
    assert MuxerRun(Configuring(|vt|), at) == Configuring(|vt| + |at|) by {
      if |at| == 1 { assert at[..0] == []; }
    }
    assert tail[..|tail| - 1] == vt + at;
    assert r.log == c.log + TrackAdds(c) + [StartMuxer];
    r
  }

  /** `setupMuxer`: once every copied encoder has reported its format, start
      the muxer, then flush the held-back video outputs and then the audio
      ones. */
  function SetupMuxer(c: Coordinator): (r: Coordinator)
    ensures r.copyVideo == c.copyVideo && r.copyAudio == c.copyAudio
    ensures IsPrefix(c.log, r.log)
    ensures DownstreamOnly(c.video, r.video) && DownstreamOnly(c.audio, r.audio)
    ensures !ReadyToMux(c) ==> r == c
    ensures ReadyToMux(c) ==> r.muxing
    ensures c.muxing ==> r.muxing
    // the tracks, video first, then the start, then the held-back video
    // outputs and then the audio ones, each queue in arrival order
    ensures ReadyToMux(c) ==>
              && r.log == c.log + TrackAdds(c) + [StartMuxer]
                                + FlushLog(Video, r.video.track, c.video.encoderOutputs)
                                + FlushLog(Audio, r.audio.track, c.audio.encoderOutputs)
              && (c.copyVideo ==> r.video.track == 0)
              && (c.copyAudio ==> r.audio.track == (if c.copyVideo then 1 else 0))
              && |r.video.encoderOutputs| == 0 && |r.audio.encoderOutputs| == 0
              && r.video.encoded == c.video.encoded + MediaOutputs(c.video.encoderOutputs)
              && r.audio.encoded == c.audio.encoded + MediaOutputs(c.audio.encoderOutputs)
  {
    if ReadyToMux(c) then
      StartThenFlush(c);
      MuxAll(MuxAll(StartMuxing(c), Video, c.video.encoderOutputs), Audio, c.audio.encoderOutputs)
    else c
  }

  /** `onInputBufferAvailable` of a decoder: feed it the next sample. */
  function OnDecoderInput(c: Coordinator, kind: StreamKind, slot: int): (r: Coordinator)
    ensures r.copyVideo == c.copyVideo && r.copyAudio == c.copyAudio && r.muxing == c.muxing
    ensures IsPrefix(c.log, r.log) && StreamOf(r, Other(kind)) == StreamOf(c, Other(kind))
    ensures StreamOf(r, kind) == StreamOf(c, kind).(feed := FeedDecoder(kind, slot, StreamOf(c, kind).feed).state)
  {
    var s := StreamOf(c, kind);
    var fed := FeedDecoder(kind, slot, s.feed);
    var r := WithStream(c, kind, s.(feed := fed.state)).(log := c.log + fed.actions);
    assert r.log[..|c.log|] == c.log;
    r
  }

  /** A decoder output that is not codec config, or a free encoder input:
      pair what can be paired. Decoder outputs are counted, and pairing
      an end-of-stream output marks the decoder done. */
  function OnPairEvent(c: Coordinator, kind: StreamKind, e: PairEvent): (r: Coordinator)
    ensures r.copyVideo == c.copyVideo && r.copyAudio == c.copyAudio && r.muxing == c.muxing
    ensures IsPrefix(c.log, r.log) && StreamOf(r, Other(kind)) == StreamOf(c, Other(kind))
    ensures StreamOf(r, kind).decoded == StreamOf(c, kind).decoded + (if e.DecoderOutput? then 1 else 0)
    ensures StreamOf(r, kind).decoderDone == (StreamOf(c, kind).decoderDone || PairStep(kind, StreamOf(c, kind).queues, e).sawEos)
    ensures StreamOf(r, kind) == StreamOf(c, kind).(queues := PairStep(kind, StreamOf(c, kind).queues, e).queues,
                                                    decoded := StreamOf(r, kind).decoded,
                                                    decoderDone := StreamOf(r, kind).decoderDone)
  {
    var s := StreamOf(c, kind);
    var p := PairStep(kind, s.queues, e);
    var s' := s.(queues := p.queues, decoded := s.decoded + (if e.DecoderOutput? then 1 else 0),
                 decoderDone := s.decoderDone || p.sawEos);
    var r := WithStream(c, kind, s').(log := c.log + p.actions);
    assert r.log[..|c.log|] == c.log;
    r
  }

  /** Starting the muxer and then flushing the video and the audio queues
      logs the track additions, the start and both flushes, in that order;
      afterwards nothing is held back and every flushed output that is not
      codec config has been counted. */
  lemma StartThenFlush(c: Coordinator)
    requires ReadyToMux(c)
    ensures var r := MuxAll(MuxAll(StartMuxing(c), Video, c.video.encoderOutputs), Audio, c.audio.encoderOutputs);
            && r.log == c.log + TrackAdds(c) + [StartMuxer]
                              + FlushLog(Video, r.video.track, c.video.encoderOutputs)
                              + FlushLog(Audio, r.audio.track, c.audio.encoderOutputs)
            && IsPrefix(c.log, r.log)
            && (c.copyVideo ==> r.video.track == 0)
            && (c.copyAudio ==> r.audio.track == (if c.copyVideo then 1 else 0))
            && |r.video.encoderOutputs| == 0 && |r.audio.encoderOutputs| == 0
            && r.video.encoded == c.video.encoded + MediaOutputs(c.video.encoderOutputs)
            && r.audio.encoded == c.audio.encoded + MediaOutputs(c.audio.encoderOutputs)
  {
    var c1 := StartMuxing(c);
    var c2 := MuxAll(c1, Video, c.video.encoderOutputs);
    var r := MuxAll(c2, Audio, c.audio.encoderOutputs);
    MuxAllFlushes(c1, Video, c.video.encoderOutputs);
    MuxAllFlushes(c2, Audio, c.audio.encoderOutputs);
    FlushedLog(c.log, c1.log, c2.log, r.log, TrackAdds(c) + [StartMuxer],
               FlushLog(Video, r.video.track, c.video.encoderOutputs),
               FlushLog(Audio, r.audio.track, c.audio.encoderOutputs));
  }

  lemma FlushedLog(l0: seq<Action>, l1: seq<Action>, l2: seq<Action>, l3: seq<Action>,
                   start: seq<Action>, fv: seq<Action>, fa: seq<Action>)
    requires l1 == l0 + start && l2 == l1 + fv && l3 == l2 + fa
    ensures l3 == l0 + start + fv + fa && IsPrefix(l0, l3)
  {
    assert l3[..|l0|] == l0;
  }

  /** One codec callback. A failure stands for the assertion the callback
      raises. */
  function Step(c: Coordinator, e: Event): (r: Result<Coordinator>)
    requires Enabled(c, e)
    ensures r.Ok? ==> r.value.copyVideo == c.copyVideo && r.value.copyAudio == c.copyAudio
    ensures r.Ok? ==> IsPrefix(c.log, r.value.log)
    ensures r.Ok? && c.muxing ==> r.value.muxing
    // only a repeated encoder format change fails, and it fails exactly when a track is assigned
    ensures !e.EncoderFormatChanged? ==> r.Ok?
    ensures e.EncoderFormatChanged? ==> (r.Fail? <==> StreamOf(c, e.kind).track >= 0)
    ensures r.Fail? ==> r.error == FormatChangedAgain(e.kind)
    // the callbacks of one stream leave the other stream alone; only the
    // muxer set-up triggered by a format change touches both
    ensures r.Ok? && !e.EncoderFormatChanged? ==> StreamOf(r.value, Other(e.kind)) == StreamOf(c, Other(e.kind))
    // decoder outputs other than codec config are counted as decoded
    ensures e.DecoderOutputAvailable? ==>
              StreamOf(r.value, e.kind).decoded == StreamOf(c, e.kind).decoded + (if IsCodecConfig(e.info.flags) then 0 else 1)
    ensures e.DecoderOutputAvailable? && IsCodecConfig(e.info.flags) ==>
              r.value.log == c.log + [ReleaseOutput(Decoder(e.kind), e.slot, false)]
    // done flags never reset
    ensures r.Ok? ==> (StreamOf(c, e.kind).decoderDone ==> StreamOf(r.value, e.kind).decoderDone)
                      && (StreamOf(c, e.kind).encoderDone ==> StreamOf(r.value, e.kind).encoderDone)
                      && (StreamOf(c, e.kind).feed.extractorDone ==> StreamOf(r.value, e.kind).feed.extractorDone)
  {
    var kind := e.kind;
    var s := StreamOf(c, kind);
    match e
    case DecoderInputAvailable(_, slot) =>
      Ok(OnDecoderInput(c, kind, slot))
    case DecoderOutputAvailable(_, slot, info) =>
      if IsCodecConfig(info.flags) then
        Ok(c.(log := c.log + [ReleaseOutput(Decoder(kind), slot, false)]))
      else
        Ok(OnPairEvent(c, kind, DecoderOutput(Pending(slot, info))))
    case DecoderFormatChanged(_) =>
      Ok(c)
    case EncoderInputAvailable(_, slot) =>
      Ok(OnPairEvent(c, kind, EncoderInput(slot)))
    case EncoderOutputAvailable(_, slot, info) =>
      Ok(Mux(c, kind, Pending(slot, info)))
    case EncoderFormatChanged(_) =>
      if s.track >= 0 then Fail(FormatChangedAgain(kind))
      else Ok(SetupMuxer(WithStream(c, kind, s.(formatKnown := true))))
    case CodecError(_) =>
      Ok(c)
  }

  /** Callbacks applied in order; the first failure ends the run. */
  function RunEvents(c: Coordinator, events: seq<Event>): (r: Result<Coordinator>)
    requires forall i :: 0 <= i < |events| ==> Enabled(c, events[i])
    ensures r.Ok? ==> r.value.copyVideo == c.copyVideo && r.value.copyAudio == c.copyAudio
    ensures r.Ok? ==> IsPrefix(c.log, r.value.log)
    decreases |events|
  {
    if |events| == 0 then Ok(c)
    else
      match Step(c, events[0])
      case Fail(err) => Fail(err)
      case Ok(c') =>
        assert forall i :: 0 <= i < |events[1..]| ==> Enabled(c', events[1..][i]) by {
          forall i | 0 <= i < |events[1..]| ensures Enabled(c', events[1..][i]) {
            assert Enabled(c, events[i + 1]);
          }
        }
        RunEvents(c', events[1..])
  }

  function TrackCount(c: Coordinator): nat {
    (if c.copyVideo then 1 else 0) + (if c.copyAudio then 1 else 0)
  }

  /** The track `setupMuxer` assigns to a stream: video first, audio next. */
  function AssignedTrack(c: Coordinator, kind: StreamKind): int {
    if !c.muxing || !Copies(c, kind) then -1
    else if kind == Video || !c.copyVideo then 0
    else 1
  }

  /** What holds between callbacks: the log has used the muxer correctly
      and left it configuring or started with one track per copied stream;
      tracks are assigned exactly when muxing; once muxing, every copied
      encoder has reported its format and nothing is held back; a stream
      that is not copied never holds anything back. */
  predicate Inv(c: Coordinator) {
    && MuxerRun(Fresh, c.log) == (if c.muxing then Started(TrackCount(c)) else Fresh)
    && c.video.track == AssignedTrack(c, Video)
    && c.audio.track == AssignedTrack(c, Audio)
    && (c.muxing ==> (c.copyVideo ==> c.video.formatKnown) && (c.copyAudio ==> c.audio.formatKnown))
    && (c.muxing ==> |c.video.encoderOutputs| == 0 && |c.audio.encoderOutputs| == 0)
    && (!c.copyVideo ==> |c.video.encoderOutputs| == 0)
    && (!c.copyAudio ==> |c.audio.encoderOutputs| == 0)
  }

  lemma InitInv(copyVideo: bool, copyAudio: bool, videoSource: seq<ExtractorRead>, audioSource: seq<ExtractorRead>)
    ensures Inv(Init(copyVideo, copyAudio, videoSource, audioSource))
  {
  }

  /** Appending codec-only actions keeps the invariant. */
  lemma CodecOnlyKeepsMuxer(log: seq<Action>, acts: seq<Action>)
    requires CodecOnly(acts)
    ensures MuxerRun(Fresh, log + acts) == MuxerRun(Fresh, log)
  {
    MuxerRunAppend(Fresh, log, acts);
    MuxerRunCodecOnly(MuxerRun(Fresh, log), acts);
  }

  lemma WriteKeepsStarted(n: nat, t: int, size: int, pts: int, a: Action)
    requires 0 <= t < n && !IsMuxerAction(a)
    ensures MuxerRun(Started(n), [WriteSample(t, size, pts), a]) == Started(n)
  {
    var acts := [WriteSample(t, size, pts), a];
    assert acts[..1] == [WriteSample(t, size, pts)];
    assert acts[..1][..0] == [];
    assert MuxerRun(Started(n), acts[..1]) == MuxerStep(Started(n), WriteSample(t, size, pts)) == Started(n);
  }

  /** Before the muxer starts, muxing only holds the output back. */
  lemma HoldBackKeepsInv(c: Coordinator, kind: StreamKind, p: Pending)
    requires Inv(c) && Copies(c, kind) && !c.muxing
    ensures Inv(Mux(c, kind, p))
  {
    var s := StreamOf(c, kind);
    assert Mux(c, kind, p) == WithStream(c, kind, s.(encoderOutputs := s.encoderOutputs + [p]));
  }

  /** After the muxer starts, a non-empty output is written to the stream's own track. */
  lemma WriteKeepsInv(c: Coordinator, kind: StreamKind, p: Pending)
    requires Inv(c) && Copies(c, kind) && c.muxing && !IsCodecConfig(p.info.flags) && p.info.size != 0
    ensures Inv(Mux(c, kind, p))
  {
    var s := StreamOf(c, kind);
    var release := ReleaseOutput(Encoder(kind), p.slot, false);
    var s' := s.(encoded := s.encoded + 1, encoderDone := s.encoderDone || IsEos(p.info.flags));
    var acts := [WriteSample(s.track, p.info.size, p.info.pts), release];
    assert Mux(c, kind, p) == WithStream(c, kind, s').(log := c.log + acts);
    MuxerRunAppend(Fresh, c.log, acts);
    WriteKeepsStarted(TrackCount(c), s.track, p.info.size, p.info.pts, release);
  }

  lemma MuxPreservesInv(c: Coordinator, kind: StreamKind, p: Pending)
    requires Inv(c) && Copies(c, kind)
    ensures Inv(Mux(c, kind, p))
  {
    if !c.muxing {
      HoldBackKeepsInv(c, kind, p);
    } else if IsCodecConfig(p.info.flags) || p.info.size == 0 {
      ReleaseOnlyKeepsInv(c, kind, p);
    } else {
      WriteKeepsInv(c, kind, p);
    }
  }

  /** After the muxer starts, a codec-config or empty output is only released. */
  lemma ReleaseOnlyKeepsInv(c: Coordinator, kind: StreamKind, p: Pending)
    requires Inv(c) && Copies(c, kind) && c.muxing && (IsCodecConfig(p.info.flags) || p.info.size == 0)
    ensures Inv(Mux(c, kind, p))
  {
    var release := ReleaseOutput(Encoder(kind), p.slot, false);
    if IsCodecConfig(p.info.flags) {
      CodecStepKeepsInv(c, c.(log := c.log + [release]), [release]);
    } else {
      EmptyWriteOutKeepsInv(c, kind, p);
    }
  }

  lemma EmptyWriteOutKeepsInv(c: Coordinator, kind: StreamKind, p: Pending)
    requires Inv(c) && c.muxing && !IsCodecConfig(p.info.flags) && p.info.size == 0
    ensures Inv(WriteOut(c, kind, p))
  {
    var release := ReleaseOutput(Encoder(kind), p.slot, false);
    var r := WriteOut(c, kind, p);
    assert MuxActions(kind, StreamOf(c, kind).track, p) == [release];
    assert DownstreamOnly(StreamOf(c, kind), StreamOf(r, kind));
    CodecStepKeepsInv(c, r, [release]);
  }

  lemma {:induction false} MuxAllPreservesInv(c: Coordinator, kind: StreamKind, ps: seq<Pending>)
    requires Inv(c) && (Copies(c, kind) || |ps| == 0)
    ensures Inv(MuxAll(c, kind, ps))
    decreases |ps|
  {
    if |ps| > 0 {
      MuxPreservesInv(c, kind, ps[0]);
      MuxAllPreservesInv(Mux(c, kind, ps[0]), kind, ps[1..]);
    }
  }

  lemma SetupMuxerPreservesInv(c: Coordinator)
    requires Inv(c)
    ensures Inv(SetupMuxer(c))
  {
    if ReadyToMux(c) {
      var c1 := StartMuxing(c);
      assert Inv(c1);
      MuxAllPreservesInv(c1, Video, c.video.encoderOutputs);
      MuxAllPreservesInv(MuxAll(c1, Video, c.video.encoderOutputs), Audio, c.audio.encoderOutputs);
    }
  }

  /** A callback that only talks to codecs and changes neither tracks,
      formats nor held-back outputs keeps the invariant. */
  lemma CodecStepKeepsInv(c: Coordinator, r: Coordinator, acts: seq<Action>)
    requires Inv(c) && CodecOnly(acts) && r.log == c.log + acts
    requires r.copyVideo == c.copyVideo && r.copyAudio == c.copyAudio && r.muxing == c.muxing
    requires r.video.track == c.video.track && r.audio.track == c.audio.track
    requires r.video.formatKnown == c.video.formatKnown && r.audio.formatKnown == c.audio.formatKnown
    requires r.video.encoderOutputs == c.video.encoderOutputs && r.audio.encoderOutputs == c.audio.encoderOutputs
    ensures Inv(r)
  {
    CodecOnlyKeepsMuxer(c.log, acts);
  }

  lemma FeedKeepsInv(c: Coordinator, kind: StreamKind, slot: int)
    requires Inv(c) && Copies(c, kind)
    ensures Inv(Step(c, DecoderInputAvailable(kind, slot)).value)
  {
    var fed := FeedDecoder(kind, slot, StreamOf(c, kind).feed);
    StepOnFeed(c, kind, slot);
    FeedIsCodecOnly(kind, slot, StreamOf(c, kind).feed);
    NewFeedKeepsInv(c, kind, fed.state, fed.actions);
  }

  lemma NewFeedKeepsInv(c: Coordinator, kind: StreamKind, f: FeedState, acts: seq<Action>)
    requires Inv(c) && Copies(c, kind) && CodecOnly(acts)
    ensures Inv(WithStream(c, kind, StreamOf(c, kind).(feed := f)).(log := c.log + acts))
  {
    CodecStepKeepsInv(c, WithStream(c, kind, StreamOf(c, kind).(feed := f)).(log := c.log + acts), acts);
  }

  lemma StepOnFeed(c: Coordinator, kind: StreamKind, slot: int)
    requires Copies(c, kind)
    ensures Step(c, DecoderInputAvailable(kind, slot)) ==
            Ok(WithStream(c, kind, StreamOf(c, kind).(feed := FeedDecoder(kind, slot, StreamOf(c, kind).feed).state))
               .(log := c.log + FeedDecoder(kind, slot, StreamOf(c, kind).feed).actions))
  {
  }

  lemma FeedIsCodecOnly(kind: StreamKind, slot: int, f: FeedState)
    ensures CodecOnly(FeedDecoder(kind, slot, f).actions)
  {
    var acts := FeedDecoder(kind, slot, f).actions;
    forall i | 0 <= i < |acts| ensures !IsMuxerAction(acts[i]) {
      assert acts[i].Queue?;
    }
  }

  lemma PairKeepsInv(c: Coordinator, e: Event)
    requires Inv(c) && Enabled(c, e)
    requires e.DecoderOutputAvailable? || e.EncoderInputAvailable?
    ensures Inv(Step(c, e).value)
  {
    var kind := e.kind;
    var s := StreamOf(c, kind);
    var r := Step(c, e).value;
    if e.DecoderOutputAvailable? {
      if IsCodecConfig(e.info.flags) {
        CodecStepKeepsInv(c, r, [ReleaseOutput(Decoder(kind), e.slot, false)]);
      } else {
        var pe := DecoderOutput(Pending(e.slot, e.info));
        CodecStepKeepsInv(c, r, PairStep(kind, s.queues, pe).actions);
      }
    } else {
      var pe := EncoderInput(e.slot);
      CodecStepKeepsInv(c, r, PairStep(kind, s.queues, pe).actions);
    }
  }

  lemma StepPreservesInv(c: Coordinator, e: Event)
    requires Inv(c) && Enabled(c, e) && Step(c, e).Ok?
    ensures Inv(Step(c, e).value)
  {
    var kind := e.kind;
    match e
    case DecoderInputAvailable(_, slot) =>
      FeedKeepsInv(c, kind, slot);
    case DecoderOutputAvailable(_, _, _) =>
      PairKeepsInv(c, e);
    case DecoderFormatChanged(_) =>
    case EncoderInputAvailable(_, _) =>
      PairKeepsInv(c, e);
    case EncoderOutputAvailable(_, slot, info) =>
      MuxPreservesInv(c, kind, Pending(slot, info));
    case EncoderFormatChanged(_) =>
      var s := StreamOf(c, kind);
      assert !c.muxing;
      SetupMuxerPreservesInv(WithStream(c, kind, s.(formatKnown := true)));
    case CodecError(_) =>
  }

  lemma {:induction false} RunPreservesInv(c: Coordinator, events: seq<Event>)
    requires Inv(c)
    requires forall i :: 0 <= i < |events| ==> Enabled(c, events[i])
    requires RunEvents(c, events).Ok?
    ensures Inv(RunEvents(c, events).value)
    decreases |events|
  {
    if |events| > 0 {
      StepPreservesInv(c, events[0]);
      var c' := Step(c, events[0]).value;
      assert forall i :: 0 <= i < |events[1..]| ==> Enabled(c', events[1..][i]) by {
        forall i | 0 <= i < |events[1..]| ensures Enabled(c', events[1..][i]) {
          assert Enabled(c, events[i + 1]);
        }
      }
      RunPreservesInv(c', events[1..]);
    }
  }

  /** Whatever order the codecs call back in, the test uses the muxer
      correctly: tracks are added before the single `start()`, and every
      sample is written after it, to a track that was added. */
  lemma TranscodeUsesMuxerCorrectly(copyVideo: bool, copyAudio: bool, videoSource: seq<ExtractorRead>,
                                    audioSource: seq<ExtractorRead>, events: seq<Event>)
    requires forall i :: 0 <= i < |events| ==> Copies(Init(copyVideo, copyAudio, videoSource, audioSource), events[i].kind)
    requires RunEvents(Init(copyVideo, copyAudio, videoSource, audioSource), events).Ok?
    ensures var log := RunEvents(Init(copyVideo, copyAudio, videoSource, audioSource), events).value.log;
            && WellUsed(log)
            && (forall j :: 0 <= j < |log| && log[j].WriteSample? ==> StartMuxer in log[..j])
            && (forall i, j :: 0 <= i < j < |log| && log[i].StartMuxer? ==> !log[j].StartMuxer? && !log[j].AddTrack?)
  {
    var c := Init(copyVideo, copyAudio, videoSource, audioSource);
    InitInv(copyVideo, copyAudio, videoSource, audioSource);
    RunPreservesInv(c, events);
    WellUsedOrdering(RunEvents(c, events).value.log);
  }

  /** The condition `awaitEncode` waits for. */
  predicate Completed(c: Coordinator) {
    (!c.copyVideo || c.video.encoderDone) && (!c.copyAudio || c.audio.encoderDone)
  }

  /** `awaitEncode`: none while it is still waiting; then the sanity checks,
      in source order. */
  function AwaitEncode(c: Coordinator): (r: Option<Outcome>)
    ensures r.None? <==> !Completed(c)
    ensures r == Some(Pass) <==>
              && Completed(c)
              && (c.copyVideo ==> c.video.decoded == c.video.encoded && c.video.decoded <= c.video.feed.extracted)
              && (c.copyAudio ==> |c.audio.queues.decoded| == 0)
    ensures r == Some(Failed(CountMismatch)) <==> Completed(c) && c.copyVideo && c.video.decoded != c.video.encoded
  {
    if !Completed(c) then None
    else if c.copyVideo && c.video.decoded != c.video.encoded then Some(Failed(CountMismatch))
    else if c.copyVideo && c.video.decoded > c.video.feed.extracted then Some(Failed(DecodedExceedsExtracted))
    else if c.copyAudio && |c.audio.queues.decoded| != 0 then Some(Failed(FramesPending))
    else Some(Pass)
  }

  /** Completion is stable: once every copied encoder is done, no further
      callback makes `awaitEncode` wait again. */
  lemma StepKeepsCompleted(c: Coordinator, e: Event)
    requires Enabled(c, e) && Completed(c) && Step(c, e).Ok?
    ensures Completed(Step(c, e).value)
  {
    if e.EncoderFormatChanged? {
      var s := StreamOf(c, e.kind);
      assert Step(c, e).value == SetupMuxer(WithStream(c, e.kind, s.(formatKnown := true)));
    }
  }

  lemma {:induction false} RunKeepsCompleted(c: Coordinator, events: seq<Event>)
    requires forall i :: 0 <= i < |events| ==> Enabled(c, events[i])
    requires Completed(c) && RunEvents(c, events).Ok?
    ensures Completed(RunEvents(c, events).value)
    decreases |events|
  {
    if |events| > 0 {
      StepKeepsCompleted(c, events[0]);
      var c' := Step(c, events[0]).value;
      forall i | 0 <= i < |events[1..]| ensures Enabled(c', events[1..][i]) {
        assert Enabled(c, events[i + 1]);
      }
      RunKeepsCompleted(c', events[1..]);
    }
  }
}
