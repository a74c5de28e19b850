/** The decoder-input callback of ATranscodeTest (`onInputBufferAvailable` of
    the video and audio decoders): it pulls samples from the stream's
    extractor into the free decoder slot until it has submitted one sample
    or the extractor is exhausted. The extractor is a script of the answers
    its calls give, one entry per loop iteration. */
module Feeder {
  import opened Common

  /** What one iteration learns from the extractor: `readSampleData`'s size,
      `getSampleTime`, `getSampleFlags`, and whether `advance()` succeeded. */
  datatype ExtractorRead = ExtractorRead(size: int, pts: int, flags: bv32, advanced: bool)

  /** What an extractor with no samples left answers. */
  const Exhausted: ExtractorRead := ExtractorRead(-1, -1, 0, false)

  /** The extractor side of one stream: its done flag, the extracted-frame
      counter, and the answers the extractor has not given yet. */
  datatype FeedState = FeedState(extractorDone: bool, extracted: nat, source: seq<ExtractorRead>)

  datatype FeedResult = FeedResult(state: FeedState, actions: seq<Action>)

  function NextRead(source: seq<ExtractorRead>): ExtractorRead {
    if |source| == 0 then Exhausted else source[0]
  }

  function Rest(source: seq<ExtractorRead>): seq<ExtractorRead> {
    if |source| == 0 then [] else source[1..]
  }

  /** The submission of a zero-length end-of-stream buffer with pts 0. */
  function EosSubmission(kind: StreamKind, slot: int): Action {
    Queue(Decoder(kind), slot, 0, 0, 0, BUFFER_FLAG_END_OF_STREAM)
  }

  /** One `onInputBufferAvailable(slot)` of the decoder of stream `kind`. */
  function FeedDecoder(kind: StreamKind, slot: int, s: FeedState): (r: FeedResult)
    // nothing happens once the extractor is done
    ensures s.extractorDone ==> r == FeedResult(s, [])
    // otherwise at least one read happens and each read bumps the counter
    ensures !s.extractorDone ==> r.state.extracted > s.extracted
    ensures r.state.extracted - s.extracted <= |s.source| + 1
    ensures s.extractorDone ==> r.state.extractorDone
    // the reads consumed are a prefix of the script
    ensures r.state.extracted - s.extracted <= |s.source| ==>
              r.state.source == s.source[r.state.extracted - s.extracted..]
    // every submission goes to this decoder's slot
    ensures forall i :: 0 <= i < |r.actions| ==> r.actions[i].Queue? && r.actions[i].codec == Decoder(kind) && r.actions[i].slot == slot
    // the loop stops after the first sample it could submit ...
    ensures !r.state.extractorDone ==> |r.actions| == 1 && r.actions[0].size >= 0
    // ... or when the extractor runs dry, submitting a zero-length EOS last
    ensures !s.extractorDone && r.state.extractorDone ==>
              1 <= |r.actions| <= 2 && r.actions[|r.actions| - 1] == EosSubmission(kind, slot)
    // reads of negative size are skipped without a submission
    ensures forall i :: 0 <= i < |r.actions| ==> r.actions[i].size >= 0
    decreases |s.source|
  {
    if s.extractorDone then FeedResult(s, [])
    else
      var rd := NextRead(s.source);
      var sample := if rd.size >= 0 then [Queue(Decoder(kind), slot, 0, rd.size, rd.pts, rd.flags)] else [];
      var done := !rd.advanced;
      var eos := if done then [EosSubmission(kind, slot)] else [];
      var next := FeedState(done, s.extracted + 1, Rest(s.source));
      if rd.size >= 0 || done then
        FeedResult(next, sample + eos)
      else
        FeedDecoder(kind, slot, next)
  }

  /** A sample of non-negative size whose `advance()` fails is submitted and
      then followed by an end-of-stream submission on the same slot. */
  lemma LastSampleSharesSlotWithEos(kind: StreamKind, slot: int, extracted: nat, size: nat, pts: int, flags: bv32)
    ensures FeedDecoder(kind, slot, FeedState(false, extracted, [ExtractorRead(size, pts, flags, false)]))
            == FeedResult(FeedState(true, extracted + 1, []),
                          [Queue(Decoder(kind), slot, 0, size, pts, flags), EosSubmission(kind, slot)])
  {
  }

  /** Reads of negative size are skipped: each costs one extracted-count, and
      the first non-negative sample after them is the one submitted. */
  lemma {:induction false} SkipsNegativeReads(kind: StreamKind, slot: int, s: FeedState, k: nat)
    requires !s.extractorDone && k < |s.source|
    requires forall i :: 0 <= i < k ==> s.source[i].size < 0 && s.source[i].advanced
    requires s.source[k].size >= 0 && s.source[k].advanced
    ensures FeedDecoder(kind, slot, s).state == FeedState(false, s.extracted + k + 1, s.source[k + 1..])
    ensures FeedDecoder(kind, slot, s).actions ==
            [Queue(Decoder(kind), slot, 0, s.source[k].size, s.source[k].pts, s.source[k].flags)]
    decreases k
  {
    if k == 0 {
    } else {
      var next := FeedState(false, s.extracted + 1, s.source[1..]);
      assert FeedDecoder(kind, slot, s) == FeedDecoder(kind, slot, next);
      SkipsNegativeReads(kind, slot, next, k - 1);
      assert s.source[1..][k - 1 + 1..] == s.source[k + 1..];
    }
  }
}
