/** Shared vocabulary of the MediaCodec transcode models: optional values,
    failures, the buffer metadata a codec hands out, and the log of effects
    that the coordinators perform on codecs and on the muxer. */
module Common {

  datatype Option<+T> = None | Some(value: T)

  /** The failures the modelled code raises (assertion failures and runtime
      exceptions), plus failures reported by external collaborators. */
  datatype Error =
    | FormatChangedAgain(kind: StreamKind)  // fail("... changed its output format again?")
    | FormatChangedTwice                    // RuntimeException("format changed twice")
    | MuxerNotStarted                       // RuntimeException("muxer hasn't started")
    | UnexpectedEncoderStatus(status: int)  // fail("unexpected result from encoder.dequeueOutputBuffer")
    | NoGoodColorFormat                     // fail("couldn't find a good color format ...")
    | UnknownColorFormat(format: int)       // RuntimeException("unknown format ...")
    | MissingTrack(kind: StreamKind)        // assertTrue("missing ... track in test video")
    | CountMismatch                         // assertEquals(decoded, encoded)
    | DecodedExceedsExtracted               // assertTrue(decoded <= extracted)
    | FramesPending                         // assertEquals(0, pending audio decoder outputs)
    | CropMismatch                          // assertEquals(mWidth, cropWidth) or the same for the height
    | IndexOutOfBounds(index: int)          // ByteBuffer.get outside the buffer
    | InputBufferTooSmall(capacity: int)    // assertTrue(inputBuf.capacity() >= frameData.length)
    | External(code: int)                   // thrown by a codec, extractor, muxer or stream

  datatype Result<+T> = Ok(value: T) | Fail(error: Error)

  datatype Outcome = Pass | Failed(error: Error)

  datatype StreamKind = Video | Audio

  /** The codec an action is addressed to. */
  datatype Codec = Decoder(kind: StreamKind) | Encoder(kind: StreamKind)

  /** MediaCodec.BufferInfo flag bits (Android platform constants). */
  const BUFFER_FLAG_KEY_FRAME: bv32 := 1
  const BUFFER_FLAG_CODEC_CONFIG: bv32 := 2
  const BUFFER_FLAG_END_OF_STREAM: bv32 := 4

  predicate HasFlag(flags: bv32, bit: bv32) {
    flags & bit != 0
  }

  predicate IsEos(flags: bv32) {
    HasFlag(flags, BUFFER_FLAG_END_OF_STREAM)
  }

  predicate IsCodecConfig(flags: bv32) {
    HasFlag(flags, BUFFER_FLAG_CODEC_CONFIG)
  }

  /** MediaCodec.BufferInfo: payload range, presentation time and flags.
      The payload bytes themselves are opaque to the model. */
  datatype BufferInfo = BufferInfo(offset: int, size: int, pts: int, flags: bv32)

  /** One effect on a collaborator, in the order the code performs it. */
  datatype Action =
    | Queue(codec: Codec, slot: int, offset: int, size: int, pts: int, flags: bv32)  // queueInputBuffer
    | ReleaseOutput(codec: Codec, slot: int, render: bool)                           // releaseOutputBuffer
    | RequestSyncFrame(codec: Codec)                                                 // setParameters(REQUEST_SYNC_FRAME)
    | AddTrack(kind: StreamKind)                                                     // muxer.addTrack
    | StartMuxer                                                                     // muxer.start
    | WriteSample(track: int, size: int, pts: int)                                   // muxer.writeSampleData

  predicate IsMuxerAction(a: Action) {
    a.AddTrack? || a.StartMuxer? || a.WriteSample?
  }

  /** No action of `log` touches the muxer. */
  predicate CodecOnly(log: seq<Action>) {
    forall i :: 0 <= i < |log| ==> !IsMuxerAction(log[i])
  }

  lemma CodecOnlyAppend(x: seq<Action>, y: seq<Action>)
    requires CodecOnly(x) && CodecOnly(y)
    ensures CodecOnly(x + y)
  {
    forall i | 0 <= i < |x + y|
      ensures !IsMuxerAction((x + y)[i])
    {
      if i >= |x| {
        assert (x + y)[i] == y[i - |x|];
      }
    }
  }

  /** `log` neither starts the muxer nor adds a track to it. */
  predicate NoStartNoTrack(log: seq<Action>) {
    forall i :: 0 <= i < |log| ==> !log[i].StartMuxer? && !log[i].AddTrack?
  }

  /** `a` is an initial part of `b`: effects are only ever appended. */
  predicate IsPrefix(a: seq<Action>, b: seq<Action>) {
    |a| <= |b| && b[..|a|] == a
  }

  function Min(a: int, b: int): int {
    if a <= b then a else b
  }
}
