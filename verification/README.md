# MediaCodec conformance tests — Dafny model

This project models the core of an Android MediaCodec compatibility-test
application. The application decodes an MP4 with `MediaExtractor` and
`MediaCodec` decoders, re-encodes it with `MediaCodec` encoders, and writes
the result with `MediaMuxer`. It also encodes a synthetic test pattern in
which every frame is a key frame. The platform objects (extractor, codecs,
muxer, file system) are not modelled as code. Each becomes a script of the
answers it gives: extractor reads, callback events, dequeue results, release
failures. Each effect on them is recorded as an `Action` in a log. The
properties are stated over those logs.

Modules, one per concern of the program:

- `Common`: results and errors, buffer flags (`KEY_FRAME` = 1,
  `CODEC_CONFIG` = 2, `END_OF_STREAM` = 4), `BufferInfo`, and the
  `Action` log of effects.
- `FileNaming`: the output-file and project-id generators. Each scans a
  directory for `^[0-9]{3}.mp4$`, takes the largest index, adds one and
  wraps modulo 1000 or 100.
- `CodecSelection`: `selectCodec`, `selectColorFormat`,
  `isRecognizedFormat`, `isSemiPlanarYUV` and the track-index lookups.
- `Feeder`: the callback transcoder's decoder-input handler, which feeds
  extractor samples and then an end-of-stream marker.
- `Pairing`: the callback transcoder's FIFO pairing of decoder outputs with
  free encoder input slots (`tryEncodeVideo` / `tryEncodeAudio`).
- `Muxer`: the usage protocol `MediaMuxer` imposes. Tracks come before
  `start()`, and writes come after it and go only to added tracks.
- `Transcoder`: the callback-driven coordinator as a whole: the callbacks,
  `setupMuxer`, `muxVideo`/`muxAudio` and `awaitEncode`. Its invariant
  implies that every run uses the muxer correctly.
- `Teardown`: the `finally` blocks of the transcode and polling tests. They attempt to release every held
  resource in a fixed order, keep the first exception, and let the test
  body's exception win.
- `PollingLoop`: the synchronous extract/decode loop of the polling test.
- `FramePattern`: `generateFrame`, `isColorClose` and `checkFrame` of the
  key-frame test, over both the planar and the semi-planar YUV 4:2:0 layout.
- `KeyFrameEncode`: the key-frame test's encode loop and
  `computePresentationTime`, with Java's 32-bit wrap-around and truncating
  division written out.

Where behaviour is surprising, the model follows the code as written:

- The file-name pattern's dot is unescaped, so `123xmp4` counts as index 123.
- The project id is taken modulo 100, so its first digit is always 0.
- A negative-size video decoder output is dropped without releasing its
  buffer.
- The polling test copies a decoded payload into its array at the buffer's
  offset rather than from it. Any payload with a non-zero offset therefore
  raises an exception, which the test swallows, and nothing is written.
- The muxer teardown of the polling test is commented out.

## Model

| member | source | states |
|---|---|---|
| Common.CodecOnlyAppend | app/src/main/java/com/android/cts/media/ATranscodeTest.java:539-895 | two logs without muxer calls concatenate to a log without muxer calls |
| FileNaming.ThreeDigitValue | app/src/main/java/com/android/cts/media/Utils.java:31 | parsing the three leading digits of a name gives a value below 1000 |
| FileNaming.LastIndex | app/src/main/java/com/android/cts/media/Utils.java:23-39 | the scan yields the largest index of any regular file whose name matches the pattern, 0 when there is none, and is below 1000 |
| FileNaming.Format3 | app/src/main/java/com/android/cts/media/Utils.java:42 | `%03d` formatting of a value below 1000 yields exactly three decimal digits |
| FileNaming.FormatParseRoundTrip | app/src/main/java/com/android/cts/media/Utils.java:31-42 | parsing a formatted index gives the index back |
| FileNaming.DecimalDigits | app/src/main/java/com/android/cts/media/Utils.java:31-42 | the hundreds, tens and units of a three-digit decimal value are its three digits again |
| FileNaming.ParseFormatRoundTrip | app/src/main/java/com/android/cts/media/Utils.java:31-42 | formatting the value of a three-digit string gives the string back, leading zeros included |
| FileNaming.NextMp4Index | app/src/main/java/com/android/cts/media/Utils.java:40-41 | the next index is one past the largest existing one and wraps to 0 exactly when the largest is 999 |
| FileNaming.WrapThousand | app/src/main/java/com/android/cts/media/Utils.java:40 | the successor of an index below 1000, reduced modulo 1000, is the successor itself except that 999 wraps to 0 |
| FileNaming.NextMp4FileName | app/src/main/java/com/android/cts/media/Utils.java:40-43 | the returned path is the directory, a slash, the next index in three digits and `.mp4`, and the digits parse back to that index |
| FileNaming.NextNameMatchesPattern | app/src/main/java/com/android/cts/media/Utils.java:24-43 | every name the function produces is itself matched by the pattern it scans for |
| FileNaming.NextMp4NameIsFresh | app/src/main/java/com/android/cts/media/Utils.java:26-41 | unless the index wraps, the new name differs from every existing file's name and its index exceeds every counted one |
| FileNaming.DifferentIndexDifferentName | app/src/main/java/com/android/cts/media/Utils.java:30-42 | a matching name with a different leading number is never the name generated for an index |
| FileNaming.NextMp4Examples | app/src/main/java/com/android/cts/media/Utils.java:23-43 | an empty directory gives `001.mp4`; `999.mp4` wraps to `000.mp4` |
| FileNaming.DotMatchesAnyCharacter | app/src/main/java/com/android/cts/media/Utils.java:24-43 | because the dot in the pattern is unescaped, a file `123xmp4` counts as index 123 and the next name is `124.mp4` |
| FileNaming.DirectoriesAreIgnored | app/src/main/java/com/android/cts/media/Utils.java:26-28 | a directory named like a recording does not count: the next name stays `001.mp4` |
| FileNaming.NextProjectIndex | app/src/androidTest/java/com/android/cts/media/AExampleInstrumentedTest.java:64-65 | the project index is below 100 and differs from one past the largest existing index by a multiple of 100; it is exactly one past when the largest is below 99, and it is 0 exactly when the largest ends in 99 |
| FileNaming.ModHundred | app/src/androidTest/java/com/android/cts/media/AExampleInstrumentedTest.java:64-65 | reducing a successor modulo 100 removes a multiple of 100 and leaves 0 exactly when the number ends in 99 |
| FileNaming.ProjectId | app/src/androidTest/java/com/android/cts/media/AExampleInstrumentedTest.java:64-67 | the project path is the directory, a slash and the index in three digits, whose first digit is always 0 |
| FileNaming.ProjectIdIsFresh | app/src/androidTest/java/com/android/cts/media/AExampleInstrumentedTest.java:50-65 | when the largest index is below 99, the new index exceeds every existing one |
| FileNaming.ProjectIdExamples | app/src/androidTest/java/com/android/cts/media/AExampleInstrumentedTest.java:47-67 | an existing `150.mp4` gives `051` because of the modulo 100; an empty directory gives `001` |
| CodecSelection.SelectCodec | app/src/main/java/com/android/cts/media/ATranscodeTest.java:1137-1154 | returns the first encoder that lists the MIME type up to letter case, and none exactly when no codec qualifies |
| CodecSelection.SuitableIgnoresCase | app/src/main/java/com/android/cts/media/ATranscodeTest.java:1142-1150 | a codec suits two MIME types that differ only in letter case equally |
| CodecSelection.SuitableCaseExample | app/src/main/java/com/android/cts/media/ATranscodeTest.java:1142-1150 | example: an encoder listing the type in upper case qualifies; a decoder never does |
| CodecSelection.SelectColorFormat | app/src/main/java/com/android/cts/media/ATranscodeTest.java:216-226 | returns the first recognised colour format the codec offers, and fails exactly when none is recognised |
| CodecSelection.RecognizedFormatValues | app/src/androidTest/java/test/AEncodeAllKeyFrameTest.java:249-265 | the recognised colour formats are exactly the platform values 19, 20, 21, 39 and 0x7f000100; the last three are semi-planar and the first two planar |
| CodecSelection.IsSemiPlanarYUV | app/src/androidTest/java/test/AEncodeAllKeyFrameTest.java:267-279 | succeeds exactly for the five recognised formats and says semi-planar exactly for the three non-planar ones; any other format is an error naming it |
| CodecSelection.TrackIndex | app/src/main/java/com/android/cts/media/ATranscodeTest.java:997-1009 | returns the first track whose MIME type starts with the prefix, and -1 exactly when there is none |
| Feeder.FeedDecoder | app/src/main/java/com/android/cts/media/ATranscodeTest.java:539-575 | a decoder input slot receives at most one sample and, once the extractor runs dry, the end-of-stream marker in the same slot; negative reads are skipped; an exhausted extractor is left alone |
| Feeder.LastSampleSharesSlotWithEos | app/src/main/java/com/android/cts/media/ATranscodeTest.java:552-569 | when the last sample fails to advance the extractor, the sample and the end-of-stream marker go into the same slot, in that order |
| Feeder.SkipsNegativeReads | app/src/main/java/com/android/cts/media/ATranscodeTest.java:545-574 | a run of negative-size reads is consumed without any submission and the next non-negative sample is submitted |
| Pairing.QueueCount | app/src/main/java/com/android/cts/media/ATranscodeTest.java:804-895 | the number of submissions among the effects is at most the number of effects |
| Pairing.VideoPairActions | app/src/main/java/com/android/cts/media/ATranscodeTest.java:819-849 | a paired video output is submitted when non-empty, directly after a sync-frame request that occurs exactly then; an end-of-stream marker follows when it is flagged, and the decoder buffer is released last |
| Pairing.VideoPairOrder | app/src/main/java/com/android/cts/media/ATranscodeTest.java:826-849 | the exact effects of a video pairing: the sync request and the sample when non-empty, then the end-of-stream marker when flagged, then the release, so the last frame never follows end of stream |
| Pairing.TryEncodeVideo | app/src/main/java/com/android/cts/media/ATranscodeTest.java:804-851 | nothing happens unless both queues are non-empty; a negative-size output is dropped while its encoder slot stays queued; otherwise both heads are consumed |
| Pairing.TryEncodeAudio | app/src/main/java/com/android/cts/media/ATranscodeTest.java:855-895 | both heads are consumed; the output is submitted exactly when its size is non-negative, and the decoder buffer is released last |
| Pairing.AudioPairOrder | app/src/main/java/com/android/cts/media/ATranscodeTest.java:874-888 | the exact effects of an audio pairing: the sample when its size is not negative, then the release, and nothing else |
| Pairing.ZippedPrefix | app/src/main/java/com/android/cts/media/ATranscodeTest.java:804-895 | the reference pairing of the first n items depends only on the first n items of each queue |
| Pairing.PairingUsesHeads | app/src/main/java/com/android/cts/media/ATranscodeTest.java:806-819 | a pairing step always combines the oldest decoder output with the oldest free encoder slot |
| Pairing.PairStep | app/src/main/java/com/android/cts/media/ATranscodeTest.java:612-669 | a callback only ever talks to the codecs; an arrival that finds the other queue empty waits at the tail of its own queue and nothing happens |
| Pairing.RunPairing | app/src/main/java/com/android/cts/media/ATranscodeTest.java:612-895 | no run of pairing callbacks ever touches the muxer |
| Pairing.DecoderOutputStep | app/src/main/java/com/android/cts/media/ATranscodeTest.java:612-615 | a decoder output arriving in the FIFO state leads to the FIFO state of the longer arrival sequence |
| Pairing.SlotMeetsWaitingOutput | app/src/main/java/com/android/cts/media/ATranscodeTest.java:666-670 | a free encoder slot that arrives while decoder outputs wait takes the oldest of them, and the rest stay queued in order |
| Pairing.EncoderInputStep | app/src/main/java/com/android/cts/media/ATranscodeTest.java:666-670 | a free encoder slot arriving in the FIFO state leads to the FIFO state of the longer slot sequence |
| Pairing.SlotWaits | app/src/main/java/com/android/cts/media/ATranscodeTest.java:666-669 | a free encoder slot that arrives with no decoder output waiting joins the free slots and nothing is submitted |
| Pairing.PairingIsFifo | app/src/main/java/com/android/cts/media/ATranscodeTest.java:806-861 | when every video decoder output has a non-negative size, after any interleaving of callbacks the i-th decoder output has been paired with the i-th free encoder slot, in order, and the leftovers stay queued |
| Pairing.OneQueueEmpty | app/src/main/java/com/android/cts/media/ATranscodeTest.java:806-819 | when every video decoder output has a non-negative size, between callbacks at least one of the two queues is empty |
| Pairing.NegativeSizeStallsVideo | app/src/main/java/com/android/cts/media/ATranscodeTest.java:815-818 | a negative-size video output is dropped without releasing its decoder buffer, so a later output waits in the queue while a slot is free |
| Muxer.MuxerStep | app/src/main/java/com/android/cts/media/ATranscodeTest.java:897-944 | tracks may be added and the muxer started only before start; a sample may be written only after start and only to an added track; misuse is final |
| Muxer.MuxerRunAppend | app/src/main/java/com/android/cts/media/ATranscodeTest.java:897-986 | running two logs in sequence equals running their concatenation |
| Muxer.MuxerRunCodecOnly | app/src/main/java/com/android/cts/media/ATranscodeTest.java:539-796 | codec-only actions leave the muxer's state unchanged |
| Muxer.MisuseIsFinal | app/src/main/java/com/android/cts/media/ATranscodeTest.java:897-986 | once misused, the muxer stays misused |
| Muxer.PrefixWellUsed | app/src/main/java/com/android/cts/media/ATranscodeTest.java:897-986 | every prefix of a correct muxer log is correct |
| Muxer.StartedIffStartLogged | app/src/main/java/com/android/cts/media/ATranscodeTest.java:909-911 | in a correct log the muxer is started exactly when `start()` appears in the log |
| Muxer.WellUsedOrdering | app/src/main/java/com/android/cts/media/ATranscodeTest.java:897-986 | in a correct log every write follows a start, start occurs at most once, and no track is added after it |
| Muxer.StartWithoutTracksRejectsWrites | app/src/main/java/com/android/cts/media/ATranscodeTest.java:897-911 | starting with no tracks is accepted, but a later write to track 0 is misuse |
| Transcoder.Mux | app/src/main/java/com/android/cts/media/ATranscodeTest.java:925-986 | before muxing, the output is held back unreleased; codec-config data is released but never written; otherwise the sample is written exactly when non-empty, the buffer is released, and the encoded count rises |
| Transcoder.MuxLog | app/src/main/java/com/android/cts/media/ATranscodeTest.java:925-956 | once muxing, one output logs a write to its stream's track unless it is codec config or empty, then its release, and is counted unless it is codec config |
| Transcoder.MuxAll | app/src/main/java/com/android/cts/media/ATranscodeTest.java:913-921 | flushing held-back outputs affects only that stream's downstream state, never touches the other stream, and only extends the log |
| Transcoder.MuxAllFlushes | app/src/main/java/com/android/cts/media/ATranscodeTest.java:913-921 | once muxing, a flush logs exactly the outputs' writes and releases in queue order and counts every output that is not codec config |
| Transcoder.MuxAllHoldsBack | app/src/main/java/com/android/cts/media/ATranscodeTest.java:926-930 | before muxing, every output is appended to the held-back queue in order and nothing is logged |
| Transcoder.StartMuxing | app/src/main/java/com/android/cts/media/ATranscodeTest.java:900-911 | starting logs the video track addition, then the audio one, each only for a copied stream, then the start; video gets track 0 and audio the next index |
| Transcoder.SetupMuxer | app/src/main/java/com/android/cts/media/ATranscodeTest.java:897-923 | nothing happens until every copied encoder has reported its format; then the log gains the track additions, the start, every held-back video output's effects and then every audio one's, in queue order; nothing stays held back and every flushed non-config output is counted |
| Transcoder.StartThenFlush | app/src/main/java/com/android/cts/media/ATranscodeTest.java:900-921 | starting and then flushing both queues logs the additions, the start, the video flush and the audio flush, in that order, with the tracks assigned and nothing left held back |
| Transcoder.WriteOut | app/src/main/java/com/android/cts/media/ATranscodeTest.java:938-954 | once muxing, an output that is not codec config is written to the stream's own track exactly when non-empty, then released and counted; the end-of-stream flag marks the encoder done; nothing else of either stream changes |
| Transcoder.OnDecoderInput | app/src/main/java/com/android/cts/media/ATranscodeTest.java:539-575 | a free decoder input slot changes only the stream's extractor state and extends the log; the other stream is untouched |
| Transcoder.OnPairEvent | app/src/main/java/com/android/cts/media/ATranscodeTest.java:576-670 | a decoder output or a free encoder slot changes only the stream's queues, its decoded count (decoder outputs only) and its decoder done flag, set when an end-of-stream output is paired |
| Transcoder.Step | app/src/main/java/com/android/cts/media/ATranscodeTest.java:539-796 | only a second encoder format change fails; codec-config decoder output is released without counting; the other stream is untouched; done flags are never reset |
| Transcoder.RunEvents | app/src/main/java/com/android/cts/media/ATranscodeTest.java:539-796 | a run of callbacks only extends the effect log and keeps which streams are copied |
| Transcoder.InitInv | app/src/main/java/com/android/cts/media/ATranscodeTest.java:262-297 | the state set up before encoding satisfies the coordinator invariant |
| Transcoder.CodecOnlyKeepsMuxer | app/src/main/java/com/android/cts/media/ATranscodeTest.java:539-796 | codec-only effects leave the muxer's state as it was |
| Transcoder.WriteKeepsStarted | app/src/main/java/com/android/cts/media/ATranscodeTest.java:941-953 | a valid write followed by a codec action keeps the muxer started |
| Transcoder.HoldBackKeepsInv | app/src/main/java/com/android/cts/media/ATranscodeTest.java:926-930 | holding back an output before muxing keeps the invariant |
| Transcoder.WriteKeepsInv | app/src/main/java/com/android/cts/media/ATranscodeTest.java:931-953 | writing a non-empty sample while muxing keeps the invariant |
| Transcoder.ReleaseOnlyKeepsInv | app/src/main/java/com/android/cts/media/ATranscodeTest.java:932-945 | once muxing, releasing a codec-config or empty output without a write keeps the invariant |
| Transcoder.EmptyWriteOutKeepsInv | app/src/main/java/com/android/cts/media/ATranscodeTest.java:941-945 | an empty output after the muxer started adds only a release, which keeps the invariant |
| Transcoder.MuxPreservesInv | app/src/main/java/com/android/cts/media/ATranscodeTest.java:925-986 | muxing any encoder output of a copied stream keeps the invariant |
| Transcoder.MuxAllPreservesInv | app/src/main/java/com/android/cts/media/ATranscodeTest.java:913-921 | flushing the held-back outputs keeps the invariant |
| Transcoder.SetupMuxerPreservesInv | app/src/main/java/com/android/cts/media/ATranscodeTest.java:897-923 | setting up the muxer keeps the invariant |
| Transcoder.CodecStepKeepsInv | app/src/main/java/com/android/cts/media/ATranscodeTest.java:539-796 | a step that adds only codec effects and keeps the muxing fields keeps the invariant |
| Transcoder.FeedKeepsInv | app/src/main/java/com/android/cts/media/ATranscodeTest.java:539-575 | feeding a decoder input slot keeps the invariant |
| Transcoder.NewFeedKeepsInv | app/src/main/java/com/android/cts/media/ATranscodeTest.java:539-575 | replacing a stream's extractor state and adding codec effects keeps the invariant |
| Transcoder.StepOnFeed | app/src/main/java/com/android/cts/media/ATranscodeTest.java:539-575 | a decoder-input callback is exactly one feeder call on that stream |
| Transcoder.FeedIsCodecOnly | app/src/main/java/com/android/cts/media/ATranscodeTest.java:539-575 | feeding never touches the muxer |
| Transcoder.PairKeepsInv | app/src/main/java/com/android/cts/media/ATranscodeTest.java:576-670 | a decoder output or a free encoder slot keeps the invariant |
| Transcoder.StepPreservesInv | app/src/main/java/com/android/cts/media/ATranscodeTest.java:539-796 | every successful callback keeps the invariant |
| Transcoder.RunPreservesInv | app/src/main/java/com/android/cts/media/ATranscodeTest.java:539-796 | every successful run of callbacks keeps the invariant |
| Transcoder.TranscodeUsesMuxerCorrectly | app/src/main/java/com/android/cts/media/ATranscodeTest.java:897-986 | from the initial state, every successful run uses the muxer correctly: writes follow the single start and no track is added after it |
| Transcoder.AwaitEncode | app/src/main/java/com/android/cts/media/ATranscodeTest.java:1097-1116 | it waits exactly until every copied encoder is done, then passes exactly when the video counts agree and no audio output is left queued; unequal video counts fail with a count mismatch |
| Transcoder.StepKeepsCompleted | app/src/main/java/com/android/cts/media/ATranscodeTest.java:1099-1105 | once every copied encoder is done, no further callback makes `awaitEncode` wait again |
| Transcoder.RunKeepsCompleted | app/src/main/java/com/android/cts/media/ATranscodeTest.java:1099-1105 | completion survives any successful run of further callbacks |
| Teardown.Calls | app/src/main/java/com/android/cts/media/ATranscodeTest.java:372-447 | every resource has at least one release call |
| Teardown.Attempt | app/src/main/java/com/android/cts/media/ATranscodeTest.java:392-402 | a resource's calls run in order and stop right after the first that throws |
| Teardown.FirstFailing | app/src/main/java/com/android/cts/media/ATranscodeTest.java:372-447 | finds the first attempted call that throws, and none exactly when none does |
| Teardown.FirstFailingAppend | app/src/main/java/com/android/cts/media/ATranscodeTest.java:372-447 | the first failure of a concatenation is in the first part if it has one, else in the second, shifted |
| Teardown.FirstErrorAppend | app/src/main/java/com/android/cts/media/ATranscodeTest.java:377-380 | the error kept over two groups of calls is the first group's if it has one, else the second's |
| Teardown.ReleaseAll | app/src/main/java/com/android/cts/media/ATranscodeTest.java:372-447 | only held resources listed in the order are touched, and the kept error is the first thrown; the exact calls, whatever fails, are stated by `Teardown.ReleaseAllIsAttempts` |
| Teardown.EveryHeldResourceAttempted | app/src/main/java/com/android/cts/media/ATranscodeTest.java:372-447 | every held resource gets its first call attempted, whatever fails before it |
| Teardown.AttemptsAppend | app/src/main/java/com/android/cts/media/ATranscodeTest.java:372-447 | the reference blocks of two orders in sequence are the blocks of the first followed by those of the second |
| Teardown.AttemptsTouch | app/src/main/java/com/android/cts/media/ATranscodeTest.java:372-447 | the reference blocks call only held resources of the order |
| Teardown.ReleaseAllIsAttempts | app/src/main/java/com/android/cts/media/ATranscodeTest.java:372-447 | whatever throws, teardown makes exactly the calls of every held resource's try block, block after block in the fixed order; a failure ends only its own block |
| Teardown.AttemptsSplit | app/src/main/java/com/android/cts/media/ATranscodeTest.java:372-447 | in the blocks of two orders in sequence, every call on the first order precedes every call on the second |
| Teardown.BlocksInOrder | app/src/main/java/com/android/cts/media/ATranscodeTest.java:372-447 | whatever throws, the calls on the first j resources of the order come before all calls on the rest |
| Teardown.ReleasedAfterStop | app/src/main/java/com/android/cts/media/ATranscodeTest.java:392-402 | a held codec or muxer whose `stop()` succeeds is released, even after earlier try blocks threw |
| Teardown.Finish | app/src/main/java/com/android/cts/media/ATranscodeTest.java:365-462 | an exception from the test body wins; otherwise the test fails exactly when a release call threw, with the first such error |
| Teardown.RunTest | app/src/androidTest/java/test/AExtractDecodeEditEncodeMuxTest.java:286-501 | the test is skipped exactly when an encoder is missing; otherwise teardown runs and the body's failure wins over a release failure |
| Teardown.PollingNeverReleasesMuxer | app/src/androidTest/java/test/AExtractDecodeEditEncodeMuxTest.java:477-487 | the polling test's teardown never calls the muxer |
| Teardown.AttemptAll | app/src/main/java/com/android/cts/media/ATranscodeTest.java:392-402 | with nothing failing, every call of a resource is made |
| Teardown.AllOpsSnoc | app/src/main/java/com/android/cts/media/ATranscodeTest.java:372-447 | the full call list of an extended order is the old list followed by the new resource's calls |
| Teardown.NoFailureMakesEveryCall | app/src/main/java/com/android/cts/media/ATranscodeTest.java:372-447 | when everything is held and nothing fails, every call of every resource is made in order and no error is kept |
| Teardown.TranscodeOps | app/src/main/java/com/android/cts/media/ATranscodeTest.java:372-447 | the transcode test's full call list is the two extractor releases, then stop and release of each codec and of the muxer, in source order |
| Teardown.TranscodeTeardownOrder | app/src/main/java/com/android/cts/media/ATranscodeTest.java:372-447 | with everything held and nothing failing, teardown makes exactly those twelve calls in that order |
| Teardown.StopFailureSkipsRelease | app/src/main/java/com/android/cts/media/ATranscodeTest.java:392-402 | when `stop()` of a codec or the muxer throws, its `release()` is never called |
| PollingLoop.ExtractOnce | app/src/androidTest/java/test/AExtractDecodeEditEncodeMuxTest.java:746-784 | one read per pass: the sample is submitted exactly when its size is non-negative; when advance fails, the end-of-stream marker follows in the same slot |
| PollingLoop.FeedOnce | app/src/androidTest/java/test/AExtractDecodeEditEncodeMuxTest.java:746-827 | extraction happens exactly when the stream is copied, not exhausted, not gated and an input slot is free |
| PollingLoop.DrainVideo | app/src/androidTest/java/test/AExtractDecodeEditEncodeMuxTest.java:830-936 | codec-config output is released only; other output is released and rendered when non-empty and counted; end of stream ends the loop; payloads are kept only when the offset is 0 |
| PollingLoop.Iterate | app/src/androidTest/java/test/AExtractDecodeEditEncodeMuxTest.java:711-941 | one pass reads each extractor at most once and counts at most one decoded frame; it only appends to the log and keeps the copy and muxing flags |
| PollingLoop.Loop | app/src/androidTest/java/test/AExtractDecodeEditEncodeMuxTest.java:711-941 | the loop consumes at most the scripted iterations and stops early only when its condition fails |
| PollingLoop.InitialPollInv | app/src/androidTest/java/test/AExtractDecodeEditEncodeMuxTest.java:689-708 | the loop's initial state satisfies its invariant |
| PollingLoop.IterateKeepsInv | app/src/androidTest/java/test/AExtractDecodeEditEncodeMuxTest.java:711-936 | one iteration keeps the invariant and raises each counter by at most one |
| PollingLoop.FeedIsCodecOnly | app/src/androidTest/java/test/AExtractDecodeEditEncodeMuxTest.java:746-827 | feeding the two decoders never calls the muxer |
| PollingLoop.DrainIsCodecOnly | app/src/androidTest/java/test/AExtractDecodeEditEncodeMuxTest.java:830-936 | draining the video decoder never calls the muxer |
| PollingLoop.LoopKeepsInv | app/src/androidTest/java/test/AExtractDecodeEditEncodeMuxTest.java:711-941 | the whole loop keeps the invariant and the counters grow by at most the number of iterations |
| PollingLoop.PollingNeverMuxes | app/src/androidTest/java/test/AExtractDecodeEditEncodeMuxTest.java:711-941 | the polling loop never touches the muxer and never turns muxing on |
| PollingLoop.NoVideoNoWork | app/src/androidTest/java/test/AExtractDecodeEditEncodeMuxTest.java:711 | without a video stream the loop does nothing at all |
| PollingLoop.EosOutputEndsLoop | app/src/androidTest/java/test/AExtractDecodeEditEncodeMuxTest.java:928-932 | an end-of-stream decoder output ends the loop after that iteration |
| PollingLoop.SilentExtensionTrans | app/src/androidTest/java/test/AExtractDecodeEditEncodeMuxTest.java:711-941 | extending a log without video-decoder submissions is transitive |
| PollingLoop.DrainIsSilent | app/src/androidTest/java/test/AExtractDecodeEditEncodeMuxTest.java:830-936 | draining never submits to the video decoder |
| PollingLoop.AudioFeedIsSilent | app/src/androidTest/java/test/AExtractDecodeEditEncodeMuxTest.java:789-827 | audio extraction never submits to the video decoder |
| PollingLoop.ExhaustedIterationIsSilent | app/src/androidTest/java/test/AExtractDecodeEditEncodeMuxTest.java:746-747 | once the video extractor is exhausted, an iteration neither reads it nor submits video input |
| PollingLoop.ExhaustedStaysSilent | app/src/androidTest/java/test/AExtractDecodeEditEncodeMuxTest.java:746-784 | once the video extractor is exhausted, the rest of the loop submits nothing to the video decoder |
| PollingLoop.ExtractOnceAgreesWithFeeder | app/src/main/java/com/android/cts/media/ATranscodeTest.java:539-575 | for a non-negative read or an exhausting one, the polling extraction agrees with the callback feeder |
| PollingLoop.NegativeReadWastesIteration | app/src/androidTest/java/test/AExtractDecodeEditEncodeMuxTest.java:763-783 | a negative-size read consumes the iteration and the sample without submitting anything |
| PollingLoop.OffsetPayloadIsNotWritten | app/src/androidTest/java/test/AExtractDecodeEditEncodeMuxTest.java:885-924 | a non-empty output at a non-zero offset is rendered and released but its payload is never written |
| FramePattern.FrameSize | app/src/androidTest/java/test/AEncodeAllKeyFrameTest.java:302 | a YUV 4:2:0 frame holds w*h luma bytes plus half as many chroma bytes |
| FramePattern.RectInsideFrame | app/src/androidTest/java/test/AEncodeAllKeyFrameTest.java:493-504 | every painted pixel lies inside the frame |
| FramePattern.RectsDisjoint | app/src/androidTest/java/test/AEncodeAllKeyFrameTest.java:493-501 | the rectangles of frames with different indices modulo 8 share no pixel |
| FramePattern.ColumnOfX | app/src/androidTest/java/test/AEncodeAllKeyFrameTest.java:493-501 | a coordinate inside the c-th quarter column divides back to c |
| FramePattern.LumaIndex | app/src/androidTest/java/test/AEncodeAllKeyFrameTest.java:510 | the luma byte of a pixel lies in the luma plane |
| FramePattern.LumaIndexInjective | app/src/androidTest/java/test/AEncodeAllKeyFrameTest.java:510 | distinct pixels have distinct luma bytes |
| FramePattern.ChromaIndexInBounds | app/src/androidTest/java/test/AEncodeAllKeyFrameTest.java:511-524 | the U and V bytes of a painted even pixel lie in the chroma part of the buffer |
| FramePattern.UIndex | app/src/androidTest/java/test/AEncodeAllKeyFrameTest.java:511-524 | the U byte of an even pixel of an even frame lies in the chroma part |
| FramePattern.VIndex | app/src/androidTest/java/test/AEncodeAllKeyFrameTest.java:511-524 | the V byte of an even pixel of an even frame lies in the chroma part |
| FramePattern.ChromaIndicesDistinct | app/src/androidTest/java/test/AEncodeAllKeyFrameTest.java:511-524 | no U byte coincides with a V byte, and distinct even pixels have distinct U and V bytes, in both layouts |
| FramePattern.GenerateFrame | app/src/androidTest/java/test/AEncodeAllKeyFrameTest.java:484-527 | an unrecognised format fails; otherwise the luma is the test colour exactly inside frame i's rectangle and, for even dimensions, U and V are the test colours exactly at its even pixels, zero elsewhere |
| FramePattern.PaintPixel | app/src/androidTest/java/test/AEncodeAllKeyFrameTest.java:503-526 | painting one pixel extends the painted region by that pixel and leaves every chroma byte a test colour or zero |
| FramePattern.WriteChroma | app/src/androidTest/java/test/AEncodeAllKeyFrameTest.java:511-524 | writing a chroma pair leaves the luma plane alone and keeps every chroma byte a test colour or zero |
| FramePattern.LumaWriteKeepsChroma | app/src/androidTest/java/test/AEncodeAllKeyFrameTest.java:510 | a luma write leaves the chroma pattern as it was |
| FramePattern.OddPixelStep | app/src/androidTest/java/test/AEncodeAllKeyFrameTest.java:511 | a pixel with an odd coordinate leaves the chroma pattern as it was |
| FramePattern.ChromaPaintStep | app/src/androidTest/java/test/AEncodeAllKeyFrameTest.java:511-524 | painting the chroma of an even pixel extends the chroma pattern by that pixel |
| FramePattern.ChromaWritesKeepLuma | app/src/androidTest/java/test/AEncodeAllKeyFrameTest.java:511-524 | chroma writes leave the luma pattern as it was |
| FramePattern.IsColorClose | app/src/androidTest/java/test/AEncodeAllKeyFrameTest.java:697-704 | a channel is close exactly when it is within 8 of the expected value; the largest delta seen only grows and becomes this delta when it is larger |
| FramePattern.Get | app/src/androidTest/java/test/AEncodeAllKeyFrameTest.java:579-591 | a read succeeds exactly inside the buffer and yields that byte; outside, it fails with the index |
| FramePattern.CheckSample | app/src/androidTest/java/test/AEncodeAllKeyFrameTest.java:565-612 | a sample read succeeds exactly when its three bytes are in the buffer; the frame is marked bad exactly when a channel is off by more than 8, and then the largest delta exceeds 8 |
| FramePattern.CheckFrom | app/src/androidTest/java/test/AEncodeAllKeyFrameTest.java:565-612 | the remaining samples succeed exactly when all are in the buffer; no failure is recorded exactly when all look right; failure coincides with a delta above 8 |
| FramePattern.CheckFrame | app/src/androidTest/java/test/AEncodeAllKeyFrameTest.java:540-614 | unrecognised formats pass unchecked; a crop of the wrong size fails; otherwise the frame passes exactly when all eight samples are within 8 of the expected colours |
| FramePattern.ExactSamplesFrom | app/src/androidTest/java/test/AEncodeAllKeyFrameTest.java:565-612 | when every remaining sample reads exactly its expected colours, the check records nothing and the largest delta is at least 0 |
| FramePattern.SampleGeometry | app/src/androidTest/java/test/AEncodeAllKeyFrameTest.java:565-574 | the eight sample points lie in the frame, and sample i lies in frame n's rectangle exactly when i is n modulo 8 |
| FramePattern.ChromaOffsetsMatch | app/src/androidTest/java/test/AEncodeAllKeyFrameTest.java:579-591 | the chroma offsets `checkFrame` reads for a pixel equal the ones `generateFrame` wrote for the even pixel at the top left of its 2x2 block, in both layouts |
| FramePattern.OffsetsMatch | app/src/androidTest/java/test/AEncodeAllKeyFrameTest.java:579-591 | for a pixel inside an even-sized uncropped frame, the luma and chroma offsets read are those of the pixel and of its 2x2 block's even corner |
| FramePattern.PatternSample | app/src/androidTest/java/test/AEncodeAllKeyFrameTest.java:565-601 | in a generated frame every sample is in the buffer and reads exactly the expected colours |
| FramePattern.GeneratedFramePasses | app/src/androidTest/java/test/AEncodeAllKeyFrameTest.java:484-614 | checking a generated frame against its own index passes and raises the largest delta to no more than 0 |
| FramePattern.WrongFrameFails | app/src/androidTest/java/test/AEncodeAllKeyFrameTest.java:484-614 | checking a generated frame against an index that differs modulo 8 reads all samples and fails |
| KeyFrameEncode.ComputePresentationTime | app/src/androidTest/java/test/AEncodeAllKeyFrameTest.java:709-711 | up to frame 2147 frame i is shown at 132 + i*10^6/15 microseconds; at frame 2148 the 32-bit product wraps and the time turns negative |
| KeyFrameEncode.NoWrapBelow | app/src/androidTest/java/test/AEncodeAllKeyFrameTest.java:709-711 | for frame indices up to 2147 the 32-bit product `frameIndex * 1000000` does not wrap |
| KeyFrameEncode.PresentationTimeStep | app/src/androidTest/java/test/AEncodeAllKeyFrameTest.java:709-711 | consecutive frames are 66666 or 66667 microseconds apart |
| KeyFrameEncode.PresentationTimeIncreasing | app/src/androidTest/java/test/AEncodeAllKeyFrameTest.java:709-711 | frame 0 is at 132 and presentation times strictly increase over the test's 300 frames |
| KeyFrameEncode.SubmitInput | app/src/androidTest/java/test/AEncodeAllKeyFrameTest.java:339-367 | the input half fails exactly for an unknown colour format or a too-small buffer; otherwise it requests a sync frame and then queues the next whole frame as a key frame at its presentation time, or queues the empty end-of-stream marker after frame 300 |
| KeyFrameEncode.DrainEncoder | app/src/androidTest/java/test/AEncodeAllKeyFrameTest.java:380-441 | the first format change adds the track and starts the muxer and a second one fails; unknown statuses fail; a non-empty buffer before start fails; config data and empty buffers are released unwritten; others are written, then released |
| KeyFrameEncode.EncodeStep | app/src/androidTest/java/test/AEncodeAllKeyFrameTest.java:338-441 | a pass runs the input half first and only extends the log; the loop ends exactly when the output half sees end of stream; the frame counter rises exactly when an input slot was free and input was not done |
| KeyFrameEncode.EncodeLoop | app/src/androidTest/java/test/AEncodeAllKeyFrameTest.java:330-442 | the loop stops early only once the encoder has produced end of stream |
| KeyFrameEncode.SubmissionsSnoc | app/src/androidTest/java/test/AEncodeAllKeyFrameTest.java:339-367 | the submissions of an extended log are the old ones plus the new action's |
| KeyFrameEncode.Frames | app/src/androidTest/java/test/AEncodeAllKeyFrameTest.java:352-364 | the reference schedule of n frames has exactly n submissions |
| KeyFrameEncode.StartInv | app/src/androidTest/java/test/AEncodeAllKeyFrameTest.java:302-330 | the loop's initial state satisfies the encode invariant |
| KeyFrameEncode.MuxerRunPair | app/src/androidTest/java/test/AEncodeAllKeyFrameTest.java:389-400 | running a log extended by two actions is two muxer steps |
| KeyFrameEncode.MuxerRunOne | app/src/androidTest/java/test/AEncodeAllKeyFrameTest.java:427-431 | running a log extended by one action is one muxer step |
| KeyFrameEncode.FramesSnoc | app/src/androidTest/java/test/AEncodeAllKeyFrameTest.java:352-364 | the reference schedule of n+1 frames adds a key frame of full size at frame n's presentation time |
| KeyFrameEncode.SubmitInputKeepsInv | app/src/androidTest/java/test/AEncodeAllKeyFrameTest.java:339-367 | the input half keeps the submissions equal to the schedule and the muxer state in step |
| KeyFrameEncode.FrameSubmissionKeepsInv | app/src/androidTest/java/test/AEncodeAllKeyFrameTest.java:353-367 | requesting a sync frame and queueing the next whole frame as a key frame keeps the submissions equal to the schedule and leaves the muxer alone |
| KeyFrameEncode.FrameSubmissionQueuesFrame | app/src/androidTest/java/test/AEncodeAllKeyFrameTest.java:353-364 | the sync-frame request adds no submission and the queued frame extends the schedule by exactly that frame |
| KeyFrameEncode.SyncedAppend | app/src/androidTest/java/test/AEncodeAllKeyFrameTest.java:361-364 | a log in which every frame submission directly follows a sync-frame request keeps that shape when extended by another such log |
| KeyFrameEncode.DrainBufferKeepsInv | app/src/androidTest/java/test/AEncodeAllKeyFrameTest.java:380-441 | an output buffer, written or only released, keeps the invariant |
| KeyFrameEncode.DrainEncoderKeepsInv | app/src/androidTest/java/test/AEncodeAllKeyFrameTest.java:380-441 | the output half keeps the invariant |
| KeyFrameEncode.EncodeStepKeepsInv | app/src/androidTest/java/test/AEncodeAllKeyFrameTest.java:330-442 | one iteration keeps the invariant |
| KeyFrameEncode.EncodeLoopKeepsInv | app/src/androidTest/java/test/AEncodeAllKeyFrameTest.java:330-442 | the whole loop keeps the invariant |
| KeyFrameEncode.EncodeRunShape | app/src/androidTest/java/test/AEncodeAllKeyFrameTest.java:330-442 | the encoder receives frames 0..n-1 as full-size key frames at their presentation times, each directly after a sync-frame request, then exactly one end-of-stream marker after frame 300; the muxer is used correctly and started exactly when start was logged |
| KeyFrameEncode.EosOutputEndsEncodeLoop | app/src/androidTest/java/test/AEncodeAllKeyFrameTest.java:433-437 | an end-of-stream output ends the loop after that iteration |

## Left out

- Threads, `HandlerThread`, `synchronized`/`wait`/`notifyAll`: callbacks are modelled as one sequential sequence of events, in any order a script supplies, each handled atomically.
- Byte payloads of compressed samples, `ByteBuffer` position/limit and copies: only sizes, offsets, timestamps and flags are modelled. The decoded video frame is modelled as a byte sequence in `FramePattern` only.
- Surfaces, OpenGL rendering, gzip compression, file output streams, logging and timing: they are I/O or have no effect on the modelled state.
- Directory creation and listing: the listing is a parameter, a sequence of entries.
- `onError` callbacks: every codec in the source ignores them.
- `Transcoder.Step`: the decoder's output-format-changed callback leaves the state unchanged; the test only logs the new format, so the format itself is not modelled.
- `Pairing.PairingIsFifo` and `Pairing.OneQueueEmpty`: proved only when every video decoder output has a non-negative size. A negative-size output makes the source stall, as `Pairing.NegativeSizeStallsVideo` shows, and then both queues can be non-empty.
- `Pairing.TryEncodeVideo`: a null `BufferInfo` at the head of the queue cannot arise from the codec and is not representable.
- `CodecSelection.SelectCodec`: letter case is folded for ASCII only; the MIME types involved are ASCII.
- Integer overflow of the frame counters: the counters stay far below 2^31 for the streams involved. Wrap-around is modelled where it shows: `computePresentationTime` wraps after frame 2147.
- `KeyFrameEncode.EncodeLoop`: the loop is driven by a finite script of dequeue results, so the model says nothing about runs in which the encoder never reports end of stream.
- `PollingLoop.Loop`: likewise bounded by a finite script. The audio decoder's output is never polled in that test, so it is absent.
- `KeyFrameEncode.DrainEncoder`: the track index that `addTrack` returns is fixed at 0, the only track of that test. The null check on the encoder output buffer is left out because a dequeued index always has a buffer.
- The key-frame test's `finally` block is not modelled. It does not follow the pattern `Teardown` models: it calls `stop()` and `release()` on the encoder, then on the decoder, then on the muxer (app/src/androidTest/java/test/AEncodeAllKeyFrameTest.java:184-201), with no per-resource `try`/`catch`. The first exception there skips every later release and replaces any exception the test body threw.
- `FramePattern.CheckFrame`: crop offsets are modelled as non-negative (`nat`), since the decoder never reports a negative crop origin.
- `FramePattern.GenerateFrame`: chroma contents are stated exactly only for even width and height. For odd dimensions the contract states only that every chroma byte is zero or a test colour.
- `FramePattern.GeneratedFramePasses`: proved for even dimensions of at least 8x4, where the eight sample points are distinct; smaller frames are not covered.
- `FramePattern.WrongFrameFails`: same dimension bounds as `GeneratedFramePasses`.
- `Teardown.RunTest`: the nulling of fields and `quitSafely` of the handler thread after the releases are left out; they have no effect on the outcome.
- `MediaFormat.getInteger` on a missing key is not modelled: the crop and colour-format keys are parameters of `VideoFormat`.
