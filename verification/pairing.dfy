/** Buffer pairing of ATranscodeTest (`tryEncodeVideo`, `tryEncodeAudio`):
    decoder outputs and free encoder input slots wait in two FIFO queues per
    stream; each call pairs at most the two heads. Payload copying is not
    modelled; a pairing shows up as the encoder submissions and the decoder
    release it performs. */
module Pairing {
  import opened Common

  /** A codec output slot together with the BufferInfo that came with it. */
  datatype Pending = Pending(slot: int, info: BufferInfo)

  /** The two queues of one stream: decoder outputs awaiting an encoder slot,
      and free encoder input slots awaiting data. */
  datatype Queues = Queues(decoded: seq<Pending>, freeSlots: seq<int>)

  /** The queues after a pairing attempt, the effects performed, and whether
      the paired decoder output carried end-of-stream. */
  datatype PairResult = PairResult(queues: Queues, actions: seq<Action>, sawEos: bool)

  /** The number of input submissions in `acts`. */
  function QueueCount(acts: seq<Action>): (n: nat)
    ensures n <= |acts|
  {
    if |acts| == 0 then 0 else (if acts[0].Queue? then 1 else 0) + QueueCount(acts[1..])
  }

  /** The effects of pairing decoder output `d` (of non-negative size) with
      free video encoder slot `e`: a sync-frame request and the sample when
      the size is positive, an EOS submission when the flags say so, and the
      decoder release last. */
  function VideoPairActions(d: Pending, e: int): (acts: seq<Action>)
    requires d.info.size >= 0
    ensures |acts| > 0 && acts[|acts| - 1] == ReleaseOutput(Decoder(Video), d.slot, false)
    ensures forall i :: 0 <= i < |acts| - 1 ==> acts[i].Queue? ==>
              acts[i].codec == Encoder(Video) && acts[i].slot == e && acts[i].pts == d.info.pts
    // a positive size is forwarded with its size, pts and flags
    ensures d.info.size > 0 ==>
              Queue(Encoder(Video), e, 0, d.info.size, d.info.pts, d.info.flags) in acts
    // end-of-stream adds a zero-length EOS submission on the same slot
    ensures IsEos(d.info.flags) ==>
              Queue(Encoder(Video), e, 0, 0, d.info.pts, BUFFER_FLAG_END_OF_STREAM) in acts
    // so a zero-size non-EOS item consumes a slot without submitting it,
    // and a positive-size EOS item submits the same slot twice
    ensures QueueCount(acts) == (if d.info.size > 0 then 1 else 0) + (if IsEos(d.info.flags) then 1 else 0)
    // pairing never touches the muxer
    ensures CodecOnly(acts)
    // a sync frame is requested exactly when a sample is forwarded, right before it
    ensures RequestSyncFrame(Encoder(Video)) in acts <==> d.info.size > 0
    ensures forall i :: 0 <= i < |acts| && acts[i].Queue? && acts[i].size > 0 ==>
              0 < i && acts[i - 1] == RequestSyncFrame(Encoder(Video))
  {
    var release := ReleaseOutput(Decoder(Video), d.slot, false);
    var sync := RequestSyncFrame(Encoder(Video));
    var sample := Queue(Encoder(Video), e, 0, d.info.size, d.info.pts, d.info.flags);
    var eos := Queue(Encoder(Video), e, 0, 0, d.info.pts, BUFFER_FLAG_END_OF_STREAM);
    assert QueueCount([release]) == 0;
    assert QueueCount([sample, release]) == 1 by {
      assert [sample, release][1..] == [release];
    }
    if d.info.size > 0 && IsEos(d.info.flags) then
      var acts := [sync, sample, eos, release];
      assert QueueCount([eos, release]) == 1 by {
        assert [eos, release][1..] == [release];
      }
      assert QueueCount([sample, eos, release]) == 2 by {
        assert [sample, eos, release][1..] == [eos, release];
      }
      assert acts[1..] == [sample, eos, release];
      acts
    else if d.info.size > 0 then
      var acts := [sync, sample, release];
      assert acts[1..] == [sample, release];
      acts
    else if IsEos(d.info.flags) then [eos, release]
    else [release]
  }

  /** A video pairing does nothing else, and in this order: the sample after
      its sync request, the end-of-stream marker, the release. So the last
      frame is never submitted after end of stream. */
  lemma VideoPairOrder(d: Pending, e: int)
    requires d.info.size >= 0
    ensures VideoPairActions(d, e) ==
              (if d.info.size > 0
               then [RequestSyncFrame(Encoder(Video)), Queue(Encoder(Video), e, 0, d.info.size, d.info.pts, d.info.flags)]
               else [])
              + (if IsEos(d.info.flags) then [Queue(Encoder(Video), e, 0, 0, d.info.pts, BUFFER_FLAG_END_OF_STREAM)] else [])
              + [ReleaseOutput(Decoder(Video), d.slot, false)]
  {
  }

  /** `tryEncodeVideo`. */
  function TryEncodeVideo(q: Queues): (r: PairResult)
    // pairing needs both queues non-empty
    ensures |q.decoded| == 0 || |q.freeSlots| == 0 ==> r == PairResult(q, [], false)
    ensures |q.decoded| > 0 && |q.freeSlots| > 0 ==> r.queues.decoded == q.decoded[1..]
    // a negative-size head is dropped: no slot consumed, no submission, no release
    ensures |q.decoded| > 0 && |q.freeSlots| > 0 && q.decoded[0].info.size < 0 ==>
              r.queues.freeSlots == q.freeSlots && r.actions == [] && !r.sawEos
    // otherwise both heads are consumed
    ensures |q.decoded| > 0 && |q.freeSlots| > 0 && q.decoded[0].info.size >= 0 ==>
              && r.queues.freeSlots == q.freeSlots[1..]
              && r.sawEos == IsEos(q.decoded[0].info.flags)
              && r.actions == VideoPairActions(q.decoded[0], q.freeSlots[0])
    ensures CodecOnly(r.actions)
  {
    if |q.freeSlots| == 0 || |q.decoded| == 0 then PairResult(q, [], false)
    else
      var d := q.decoded[0];
      if d.info.size < 0 then PairResult(Queues(q.decoded[1..], q.freeSlots), [], false)
      else
        PairResult(Queues(q.decoded[1..], q.freeSlots[1..]), VideoPairActions(d, q.freeSlots[0]), IsEos(d.info.flags))
  }

  /** `tryEncodeAudio`. */
  function TryEncodeAudio(q: Queues): (r: PairResult)
    ensures |q.decoded| == 0 || |q.freeSlots| == 0 ==> r == PairResult(q, [], false)
    // both heads are always consumed and the decoder slot is always released
    ensures |q.decoded| > 0 && |q.freeSlots| > 0 ==>
              && r.queues == Queues(q.decoded[1..], q.freeSlots[1..])
              && r.sawEos == IsEos(q.decoded[0].info.flags)
              && |r.actions| > 0
              && r.actions[|r.actions| - 1] == ReleaseOutput(Decoder(Audio), q.decoded[0].slot, false)
              // a submission happens exactly when the size is not negative
              && (q.decoded[0].info.size >= 0 <==>
                    Queue(Encoder(Audio), q.freeSlots[0], 0, q.decoded[0].info.size,
                          q.decoded[0].info.pts, q.decoded[0].info.flags) in r.actions)
              && QueueCount(r.actions) == (if q.decoded[0].info.size >= 0 then 1 else 0)
    ensures CodecOnly(r.actions)
  {
    if |q.freeSlots| == 0 || |q.decoded| == 0 then PairResult(q, [], false)
    else
      var d := q.decoded[0];
      var e := q.freeSlots[0];
      var sample := if d.info.size >= 0
                    then [Queue(Encoder(Audio), e, 0, d.info.size, d.info.pts, d.info.flags)]
                    else [];
      var acts := sample + [ReleaseOutput(Decoder(Audio), d.slot, false)];
      PairResult(Queues(q.decoded[1..], q.freeSlots[1..]), acts, IsEos(d.info.flags))
  }

  /** An audio pairing submits the sample when its size is not negative and
      then releases the decoder buffer; nothing else, in particular no
      sync-frame request. */
  lemma AudioPairOrder(q: Queues)
    requires |q.decoded| > 0 && |q.freeSlots| > 0
    ensures TryEncodeAudio(q).actions ==
              (if q.decoded[0].info.size >= 0
               then [Queue(Encoder(Audio), q.freeSlots[0], 0, q.decoded[0].info.size,
                           q.decoded[0].info.pts, q.decoded[0].info.flags)]
               else [])
              + [ReleaseOutput(Decoder(Audio), q.decoded[0].slot, false)]
  {
  }

  function TryEncode(kind: StreamKind, q: Queues): PairResult {
    match kind
    case Video => TryEncodeVideo(q)
    case Audio => TryEncodeAudio(q)
  }

  /** The two callbacks that feed the queues. */
  datatype PairEvent = DecoderOutput(item: Pending) | EncoderInput(slot: int)

  /** Arrivals append at the tail; the callback then attempts one pairing. */
  function PairStep(kind: StreamKind, q: Queues, e: PairEvent): (r: PairResult)
    // pairing only talks to the codecs
    ensures CodecOnly(r.actions)
    // an arrival that finds the other queue empty waits at the tail of its own queue
    ensures e.DecoderOutput? && |q.freeSlots| == 0 ==> r == PairResult(Queues(q.decoded + [e.item], []), [], false)
    ensures e.EncoderInput? && |q.decoded| == 0 ==> r == PairResult(Queues([], q.freeSlots + [e.slot]), [], false)
  {
    match e
    case DecoderOutput(item) => TryEncode(kind, Queues(q.decoded + [item], q.freeSlots))
    case EncoderInput(slot) => TryEncode(kind, Queues(q.decoded, q.freeSlots + [slot]))
  }

  datatype Run = Run(queues: Queues, log: seq<Action>)

  /** The queues and the effects after the callbacks `events`, from empty queues. */
  function RunPairing(kind: StreamKind, events: seq<PairEvent>): (run: Run)
    // the effects of a whole run never touch the muxer
    ensures CodecOnly(run.log)
  {
    if |events| == 0 then Run(Queues([], []), [])
    else
      var prev := RunPairing(kind, events[..|events| - 1]);
      var r := PairStep(kind, prev.queues, events[|events| - 1]);
      CodecOnlyAppend(prev.log, r.actions);
      Run(r.queues, prev.log + r.actions)
  }

  /** The decoder outputs among `events`, in arrival order. */
  function Arrived(events: seq<PairEvent>): seq<Pending> {
    if |events| == 0 then []
    else Arrived(events[..|events| - 1])
         + (if events[|events| - 1].DecoderOutput? then [events[|events| - 1].item] else [])
  }

  /** The free encoder slots among `events`, in arrival order. */
  function Freed(events: seq<PairEvent>): seq<int> {
    if |events| == 0 then []
    else Freed(events[..|events| - 1])
         + (if events[|events| - 1].EncoderInput? then [events[|events| - 1].slot] else [])
  }

  /** The effects of pairing decoder output `d` with encoder slot `slot`. */
  function PairActions(kind: StreamKind, d: Pending, slot: int): seq<Action> {
    TryEncode(kind, Queues([d], [slot])).actions
  }

  /** The reference log: the i-th decoder output paired with the i-th free
      slot, for i < n, in that order. */
  function Zipped(kind: StreamKind, ds: seq<Pending>, ss: seq<int>, n: nat): seq<Action>
    requires n <= |ds| && n <= |ss|
  {
    if n == 0 then [] else Zipped(kind, ds, ss, n - 1) + PairActions(kind, ds[n - 1], ss[n - 1])
  }

  /** The first `n` pairs depend only on the first `n` elements of each side. */
  lemma {:induction false} ZippedPrefix(kind: StreamKind, ds: seq<Pending>, ds2: seq<Pending>, ss: seq<int>, ss2: seq<int>, n: nat)
    requires n <= |ds| && n <= |ds2| && n <= |ss| && n <= |ss2|
    requires ds[..n] == ds2[..n] && ss[..n] == ss2[..n]
    ensures Zipped(kind, ds, ss, n) == Zipped(kind, ds2, ss2, n)
  {
    if n > 0 {
      assert ds[n - 1] == ds[..n][n - 1] == ds2[n - 1];
      assert ss[n - 1] == ss[..n][n - 1] == ss2[n - 1];
      assert ds[..n - 1] == ds[..n][..n - 1] && ds2[..n - 1] == ds2[..n][..n - 1];
      assert ss[..n - 1] == ss[..n][..n - 1] && ss2[..n - 1] == ss2[..n][..n - 1];
      ZippedPrefix(kind, ds, ds2, ss, ss2, n - 1);
    }
  }

  /** Pairing looks only at the two heads. */
  lemma PairingUsesHeads(kind: StreamKind, q: Queues)
    requires |q.decoded| > 0 && |q.freeSlots| > 0
    requires kind == Video ==> q.decoded[0].info.size >= 0
    ensures TryEncode(kind, q).actions == PairActions(kind, q.decoded[0], q.freeSlots[0])
    ensures TryEncode(kind, q).queues == Queues(q.decoded[1..], q.freeSlots[1..])
  {
  }

  /** The state FIFO pairing predicts after decoder outputs `ds` and free
      slots `ss` have arrived: the first min(|ds|, |ss|) of each paired in
      order, the rest waiting. */
  function FifoRun(kind: StreamKind, ds: seq<Pending>, ss: seq<int>): Run {
    var m := Min(|ds|, |ss|);
    Run(Queues(ds[m..], ss[m..]), Zipped(kind, ds, ss, m))
  }

  predicate UsableSizes(kind: StreamKind, ds: seq<Pending>) {
    kind == Video ==> forall i :: 0 <= i < |ds| ==> ds[i].info.size >= 0
  }

  /** A decoder output arriving in the predicted state leads to the predicted state. */
  lemma DecoderOutputStep(kind: StreamKind, ds: seq<Pending>, ss: seq<int>, d: Pending)
    requires UsableSizes(kind, ds + [d])
    ensures var prev := FifoRun(kind, ds, ss);
            var r := PairStep(kind, prev.queues, DecoderOutput(d));
            Run(r.queues, prev.log + r.actions) == FifoRun(kind, ds + [d], ss)
  {
    var m := Min(|ds|, |ss|);
    var ds2 := ds + [d];
    assert ds2[..m] == ds[..m];
    ZippedPrefix(kind, ds2, ds, ss, ss, m);
    var q := Queues(ds[m..] + [d], ss[m..]);
    if m == |ss| {
      assert Min(|ds2|, |ss|) == m;
      assert ds2[m..] == ds[m..] + [d];
    } else {
      assert m == |ds|;
      assert q.decoded == [d] && d == ds2[m];
      assert kind == Video ==> ds2[m].info.size >= 0;
      PairingUsesHeads(kind, q);
      assert PairStep(kind, Queues(ds[m..], ss[m..]), DecoderOutput(d)) == TryEncode(kind, q);
      assert Zipped(kind, ds2, ss, m + 1) == Zipped(kind, ds2, ss, m) + PairActions(kind, d, ss[m]);
      assert Min(|ds2|, |ss|) == m + 1;
      assert ss[m + 1..] == ss[m..][1..];
    }
  }

  /** A free encoder slot arriving in the predicted state leads to the predicted state. */
  lemma EncoderInputStep(kind: StreamKind, ds: seq<Pending>, ss: seq<int>, slot: int)
    requires UsableSizes(kind, ds)
    ensures var prev := FifoRun(kind, ds, ss);
            var r := PairStep(kind, prev.queues, EncoderInput(slot));
            Run(r.queues, prev.log + r.actions) == FifoRun(kind, ds, ss + [slot])
  {
    var m := Min(|ds|, |ss|);
    var ss2 := ss + [slot];
    assert ss2[..m] == ss[..m];
    ZippedPrefix(kind, ds, ds, ss2, ss, m);
    if m == |ds| {
      SlotWaits(kind, ds, ss, slot);
    } else {
      SlotMeetsWaitingOutput(kind, ds, ss, slot);
      assert Min(|ds|, |ss2|) == m + 1;
      assert Zipped(kind, ds, ss2, m + 1) == Zipped(kind, ds, ss2, m) + PairActions(kind, ds[m], slot);
    }
  }

  /** The case where no decoder output is waiting: the new slot joins the free slots. */
  lemma SlotWaits(kind: StreamKind, ds: seq<Pending>, ss: seq<int>, slot: int)
    requires |ds| <= |ss|
    ensures var m := |ds|;
            && PairStep(kind, Queues([], ss[m..]), EncoderInput(slot)) == PairResult(Queues([], (ss + [slot])[m..]), [], false)
            && Min(|ds|, |ss + [slot]|) == m
  {
    var m := |ds|;
    assert (ss + [slot])[m..] == ss[m..] + [slot];
  }

  /** The case where decoder outputs are waiting: the new slot is paired
      with the oldest of them. */
  lemma SlotMeetsWaitingOutput(kind: StreamKind, ds: seq<Pending>, ss: seq<int>, slot: int)
    requires |ss| < |ds| && UsableSizes(kind, ds)
    ensures var m := |ss|;
            var r := PairStep(kind, Queues(ds[m..], []), EncoderInput(slot));
            && r.queues == Queues(ds[m + 1..], [])
            && r.actions == PairActions(kind, ds[m], slot)
  {
    var m := |ss|;
    var q := Queues(ds[m..], [slot]);
    assert kind == Video ==> ds[m].info.size >= 0;
    PairingUsesHeads(kind, q);
    assert ds[m + 1..] == ds[m..][1..];
  }

  /** FIFO pairing: whatever the interleaving of decoder-output and
      encoder-input callbacks, the k-th decoder output is paired with the k-th
      free encoder slot, as many pairs are made as both sides allow, and
      what is left waits in arrival order. For video this needs every
      decoder output to have a non-negative size (see
      NegativeSizeStallsVideo). */
  lemma {:induction false} PairingIsFifo(kind: StreamKind, events: seq<PairEvent>)
    requires UsableSizes(kind, Arrived(events))
    ensures RunPairing(kind, events) == FifoRun(kind, Arrived(events), Freed(events))
  {
    if |events| > 0 {
      var pre := events[..|events| - 1];
      var ds := Arrived(pre);
      match events[|events| - 1] {
        case DecoderOutput(d) =>
          assert Arrived(events) == ds + [d] && Freed(events) == Freed(pre);
          assert UsableSizes(kind, ds) by {
            forall i | 0 <= i < |ds| && kind == Video ensures ds[i].info.size >= 0 {
              assert ds[i] == (ds + [d])[i];
            }
          }
          PairingIsFifo(kind, pre);
          DecoderOutputStep(kind, ds, Freed(pre), d);
        case EncoderInput(slot) =>
          assert Arrived(events) == ds && Freed(events) == Freed(pre) + [slot];
          PairingIsFifo(kind, pre);
          EncoderInputStep(kind, ds, Freed(pre), slot);
      }
    }
  }

  /** One of the two queues is always empty when every output has a usable size. */
  lemma OneQueueEmpty(kind: StreamKind, events: seq<PairEvent>)
    requires UsableSizes(kind, Arrived(events))
    ensures |RunPairing(kind, events).queues.decoded| == 0 || |RunPairing(kind, events).queues.freeSlots| == 0
  {
    PairingIsFifo(kind, events);
  }

  /** Video quirk: a negative-size output at the head is dropped but uses up
      the pairing attempt, so a usable output and a free slot can both stay
      queued until the next callback arrives. */
  lemma NegativeSizeStallsVideo(bad: BufferInfo, good: BufferInfo)
    requires bad.size < 0 && good.size > 0
    ensures RunPairing(Video, [DecoderOutput(Pending(1, bad)), DecoderOutput(Pending(2, good)), EncoderInput(7)])
            == Run(Queues([Pending(2, good)], [7]), [])
  {
    var evs := [DecoderOutput(Pending(1, bad)), DecoderOutput(Pending(2, good)), EncoderInput(7)];
    assert evs[..2][..1][..0] == [];
    assert RunPairing(Video, evs[..2][..1]) == Run(Queues([Pending(1, bad)], []), []);
    assert RunPairing(Video, evs[..2]) == Run(Queues([Pending(1, bad), Pending(2, good)], []), []);
  }
}
