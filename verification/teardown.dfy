/** The `finally` blocks of both `extractDecodeEditEncodeMux` methods: every
    resource that was acquired is released in a fixed order, each inside
    its own try/catch, the first exception is remembered, and it is rethrown
    after all attempts unless the body already threw. Which calls throw is
    an input (`fails` maps a call to the exception code it throws). */
module Teardown {
  import opened Common

  datatype Resource =
    | VideoExtractor | AudioExtractor | VideoDecoder | OutputSurface | VideoEncoder
    | AudioDecoder | AudioEncoder | MuxerResource | FileOutput | InputSurface

  datatype Call = Stop | Release | Close

  /** One call on one resource. */
  datatype Op = Op(res: Resource, call: Call)

  /** The calls each resource's try block makes: codecs and the muxer are
      stopped and then released, the output stream is closed, the rest are
      released. */
  function Calls(r: Resource): (cs: seq<Call>)
    ensures |cs| > 0
  {
    match r
    case VideoDecoder => [Stop, Release]
    case VideoEncoder => [Stop, Release]
    case AudioDecoder => [Stop, Release]
    case AudioEncoder => [Stop, Release]
    case MuxerResource => [Stop, Release]
    case FileOutput => [Close]
    case _ => [Release]
  }

  /** ATranscodeTest: extractors, then decoder/encoder per stream, then the muxer. */
  const TranscodeOrder: seq<Resource> :=
    [VideoExtractor, AudioExtractor, VideoDecoder, VideoEncoder, AudioDecoder, AudioEncoder, MuxerResource]

  /** AExtractDecodeEditEncodeMuxTest: the muxer's block is commented out,
      the output stream and the input surface come last. */
  const PollingOrder: seq<Resource> :=
    [VideoExtractor, AudioExtractor, VideoDecoder, OutputSurface, VideoEncoder,
     AudioDecoder, AudioEncoder, FileOutput, InputSurface]

  /** The calls of one try block: they run in order and the first one that
      throws ends the block. */
  function Attempt(r: Resource, calls: seq<Call>, fails: map<Op, int>): (a: seq<Op>)
    ensures |a| <= |calls|
    ensures forall k :: 0 <= k < |a| ==> a[k] == Op(r, calls[k])
    // only the last attempted call can have thrown ...
    ensures forall k :: 0 <= k < |a| - 1 ==> a[k] !in fails
    // ... and the block stops early only because one did
    ensures |a| < |calls| ==> |a| > 0 && a[|a| - 1] in fails
    ensures |calls| > 0 ==> |a| > 0
  {
    if |calls| == 0 then []
    else if Op(r, calls[0]) in fails then [Op(r, calls[0])]
    else [Op(r, calls[0])] + Attempt(r, calls[1..], fails)
  }

  /** The index of the first op of `ops` that throws. */
  function FirstFailing(ops: seq<Op>, fails: map<Op, int>): (k: Option<nat>)
    ensures k.Some? ==> k.value < |ops| && ops[k.value] in fails
                        && forall j :: 0 <= j < k.value ==> ops[j] !in fails
    ensures k.None? <==> forall j :: 0 <= j < |ops| ==> ops[j] !in fails
  {
    if |ops| == 0 then None
    else if ops[0] in fails then Some(0)
    else
      match FirstFailing(ops[1..], fails)
      case None => None
      case Some(k) => Some(k + 1)
  }

  /** The exception of the first op of `ops` that throws, if any. */
  function FirstError(ops: seq<Op>, fails: map<Op, int>): Option<Error> {
    match FirstFailing(ops, fails)
    case None => None
    case Some(k) => Some(External(fails[ops[k]]))
  }

  lemma {:induction false} FirstFailingAppend(x: seq<Op>, y: seq<Op>, fails: map<Op, int>)
    ensures FirstFailing(x, fails).Some? ==> FirstFailing(x + y, fails) == FirstFailing(x, fails)
    ensures FirstFailing(x, fails).None? ==>
              FirstFailing(x + y, fails) ==
              (match FirstFailing(y, fails) case None => None case Some(k) => Some(|x| + k))
    decreases |x|
  {
    if |x| == 0 {
      assert x + y == y;
    } else {
      assert (x + y)[0] == x[0] && (x + y)[1..] == x[1..] + y;
      FirstFailingAppend(x[1..], y, fails);
    }
  }

  /** Once an exception is kept, later ones are only logged. */
  lemma FirstErrorAppend(x: seq<Op>, y: seq<Op>, fails: map<Op, int>)
    ensures FirstError(x + y, fails) ==
            (if FirstError(x, fails).Some? then FirstError(x, fails) else FirstError(y, fails))
  {
    FirstFailingAppend(x, y, fails);
    match FirstFailing(y, fails)
    case None =>
    case Some(k) => assert (x + y)[|x| + k] == y[k];
  }

  datatype Teardown = Teardown(attempted: seq<Op>, first: Option<Error>)

  /** The whole `finally` block for the resources `held` (the non-null
      fields), visited in `order`. */
  function ReleaseAll(order: seq<Resource>, held: set<Resource>, fails: map<Op, int>): (t: Teardown)
    // only acquired resources listed in the order are touched
    ensures forall k :: 0 <= k < |t.attempted| ==> t.attempted[k].res in held && t.attempted[k].res in order
    // the exception kept is the one the earliest throwing call raised
    ensures t.first == FirstError(t.attempted, fails)
  {
    if |order| == 0 then Teardown([], None)
    else
      var prev := ReleaseAll(order[..|order| - 1], held, fails);
      var r := order[|order| - 1];
      if r !in held then prev
      else
        var a := Attempt(r, Calls(r), fails);
        var first := if prev.first.Some? then prev.first
                     else if a[|a| - 1] in fails then Some(External(fails[a[|a| - 1]]))
                     else None;
        FirstErrorAppend(prev.attempted, a, fails);
        assert FirstError(a, fails) == (if a[|a| - 1] in fails then Some(External(fails[a[|a| - 1]])) else None) by {
          var k := FirstFailing(a, fails);
          assert k.Some? ==> k.value == |a| - 1;
        }
        Teardown(prev.attempted + a, first)
  }

  /** Every acquired resource in the order is attempted, whatever failed before it. */
  lemma {:induction false} EveryHeldResourceAttempted(order: seq<Resource>, held: set<Resource>, fails: map<Op, int>)
    ensures forall i :: 0 <= i < |order| && order[i] in held ==>
              Op(order[i], Calls(order[i])[0]) in ReleaseAll(order, held, fails).attempted
  {
    if |order| > 0 {
      var pre := order[..|order| - 1];
      EveryHeldResourceAttempted(pre, held, fails);
      forall i | 0 <= i < |order| - 1 ensures order[i] == pre[i] { }
      var r := order[|order| - 1];
      if r in held {
        var prev := ReleaseAll(pre, held, fails);
        var a := Attempt(r, Calls(r), fails);
        assert (prev.attempted + a)[|prev.attempted|] == a[0];
      }
    }
  }

  /** The reference teardown: the try block of every held resource of
      `order`, front to back, whatever the earlier blocks threw. */
  function Attempts(order: seq<Resource>, held: set<Resource>, fails: map<Op, int>): seq<Op>
    decreases |order|
  {
    if |order| == 0 then []
    else (if order[0] in held then Attempt(order[0], Calls(order[0]), fails) else [])
         + Attempts(order[1..], held, fails)
  }

  lemma {:induction false} AttemptsAppend(x: seq<Resource>, y: seq<Resource>, held: set<Resource>, fails: map<Op, int>)
    ensures Attempts(x + y, held, fails) == Attempts(x, held, fails) + Attempts(y, held, fails)
    decreases |x|
  {
    if |x| == 0 {
      assert x + y == y;
    } else {
      assert (x + y)[0] == x[0] && (x + y)[1..] == x[1..] + y;
      AttemptsAppend(x[1..], y, held, fails);
    }
  }

  /** The blocks of `order` touch only held resources of `order`. */
  lemma {:induction false} AttemptsTouch(order: seq<Resource>, held: set<Resource>, fails: map<Op, int>)
    ensures forall k :: 0 <= k < |Attempts(order, held, fails)| ==>
              Attempts(order, held, fails)[k].res in held && Attempts(order, held, fails)[k].res in order
    decreases |order|
  {
    if |order| > 0 {
      AttemptsTouch(order[1..], held, fails);
      var head: seq<Op> := if order[0] in held then Attempt(order[0], Calls(order[0]), fails) else [];
      var rest := Attempts(order[1..], held, fails);
      forall k | 0 <= k < |head + rest| ensures (head + rest)[k].res in held && (head + rest)[k].res in order {
        if k >= |head| {
          assert (head + rest)[k] == rest[k - |head|];
          assert rest[k - |head|].res in order[1..];
        }
      }
    }
  }

  /** Whatever throws, the teardown makes exactly the calls of every held
      resource's try block, block after block in the fixed order: a
      failure ends only its own block. */
  lemma {:induction false} ReleaseAllIsAttempts(order: seq<Resource>, held: set<Resource>, fails: map<Op, int>)
    ensures ReleaseAll(order, held, fails).attempted == Attempts(order, held, fails)
    decreases |order|
  {
    if |order| > 0 {
      var pre := order[..|order| - 1];
      var r := order[|order| - 1];
      ReleaseAllIsAttempts(pre, held, fails);
      assert order == pre + [r];
      AttemptsAppend(pre, [r], held, fails);
      assert Attempts([r], held, fails) == (if r in held then Attempt(r, Calls(r), fails) else []) + [];
    }
  }

  /** In the blocks of `x + y`, the calls on `x` come first. */
  lemma {:induction false} AttemptsSplit(x: seq<Resource>, y: seq<Resource>, held: set<Resource>, fails: map<Op, int>)
    ensures var att := Attempts(x + y, held, fails);
            var n := |Attempts(x, held, fails)|;
            && n <= |att|
            && (forall p :: 0 <= p < n ==> att[p].res in x)
            && (forall p :: n <= p < |att| ==> att[p].res in y)
  {
    var front := Attempts(x, held, fails);
    var back := Attempts(y, held, fails);
    AttemptsAppend(x, y, held, fails);
    AttemptsTouch(x, held, fails);
    AttemptsTouch(y, held, fails);
    var att := front + back;
    forall p | 0 <= p < |front| ensures att[p].res in x {
      assert att[p] == front[p];
    }
    forall p | |front| <= p < |att| ensures att[p].res in y {
      assert att[p] == back[p - |front|];
    }
  }

  /** The calls on the first `j` resources of the order all come before the
      calls on the rest. */
  lemma {:induction false} BlocksInOrder(order: seq<Resource>, held: set<Resource>, fails: map<Op, int>, j: nat)
    requires j <= |order|
    ensures var att := ReleaseAll(order, held, fails).attempted;
            var n := |ReleaseAll(order[..j], held, fails).attempted|;
            && n <= |att|
            && (forall p :: 0 <= p < n ==> att[p].res in order[..j])
            && (forall p :: n <= p < |att| ==> att[p].res in order[j..])
  {
    var x, y := order[..j], order[j..];
    ReleaseAllIsAttempts(order, held, fails);
    ReleaseAllIsAttempts(x, held, fails);
    assert x + y == order;
    AttemptsSplit(x, y, held, fails);
    assert ReleaseAll(order, held, fails).attempted == Attempts(x + y, held, fails);
  }

  /** A held codec or muxer whose `stop()` succeeds is released, even after
      earlier blocks threw. */
  lemma {:induction false} ReleasedAfterStop(order: seq<Resource>, held: set<Resource>, fails: map<Op, int>, i: nat)
    requires i < |order| && order[i] in held
    requires Calls(order[i]) == [Stop, Release] && Op(order[i], Stop) !in fails
    ensures Op(order[i], Release) in ReleaseAll(order, held, fails).attempted
  {
    var r := order[i];
    var a := Attempt(r, Calls(r), fails);
    assert |a| == 2 && a[1] == Op(r, Release);
    ReleaseAllIsAttempts(order, held, fails);
    assert order == order[..i] + order[i..];
    AttemptsAppend(order[..i], order[i..], held, fails);
    assert order[i..][0] == r;
    assert Attempts(order[i..], held, fails) == a + Attempts(order[i + 1..], held, fails) by {
      assert order[i..][1..] == order[i + 1..];
    }
    assert (Attempts(order[..i], held, fails) + (a + Attempts(order[i + 1..], held, fails)))[|Attempts(order[..i], held, fails)| + 1] == a[1];
  }

  /** The outcome of the test method: an exception from the body takes
      precedence; otherwise the first release exception is rethrown. */
  function Finish(body: Outcome, t: Teardown): (r: Outcome)
    ensures body.Failed? ==> r == body
    ensures body.Pass? ==> (r.Pass? <==> t.first.None?)
    ensures body.Pass? && t.first.Some? ==> r == Failed(t.first.value)
  {
    if body.Failed? then body
    else if t.first.Some? then Failed(t.first.value)
    else Pass
  }

  /** How a test method ends: skipped before acquiring anything when no
      suitable encoder exists, otherwise with an outcome after teardown. */
  datatype TestRun = Skipped | Finished(outcome: Outcome, teardown: Teardown)

  /** `extractDecodeEditEncodeMux` around its body: a missing AVC or AAC
      encoder returns quietly before the try block; otherwise the body's
      outcome meets the teardown of `held` in `order`. */
  function RunTest(order: seq<Resource>, videoEncoderFound: bool, audioEncoderFound: bool,
                   body: Outcome, held: set<Resource>, fails: map<Op, int>): (r: TestRun)
    ensures r.Skipped? <==> !videoEncoderFound || !audioEncoderFound
    ensures r.Finished? ==> r.teardown == ReleaseAll(order, held, fails)
                            && (body.Failed? ==> r.outcome == body)
                            && (body.Pass? ==> (r.outcome.Pass? <==> r.teardown.first.None?))
  {
    if !videoEncoderFound || !audioEncoderFound then Skipped
    else
      var t := ReleaseAll(order, held, fails);
      Finished(Finish(body, t), t)
  }

  /** The polling test never stops or releases the muxer: it is absent from
      its order, so no call on it is ever attempted. */
  lemma PollingNeverReleasesMuxer(held: set<Resource>, fails: map<Op, int>)
    ensures forall k :: 0 <= k < |ReleaseAll(PollingOrder, held, fails).attempted| ==>
              ReleaseAll(PollingOrder, held, fails).attempted[k].res != MuxerResource
  {
    assert MuxerResource !in PollingOrder;
  }

  /** A try block none of whose calls throws makes all of them. */
  lemma AttemptAll(r: Resource, fails: map<Op, int>)
    requires forall c :: Op(r, c) !in fails
    ensures |Calls(r)| == 1 ==> Attempt(r, Calls(r), fails) == [Op(r, Calls(r)[0])]
    ensures |Calls(r)| == 2 ==> Attempt(r, Calls(r), fails) == [Op(r, Stop), Op(r, Release)]
  {
  }

  /** The calls of one try block when none of them throws. */
  function Block(r: Resource): seq<Op> {
    if |Calls(r)| == 1 then [Op(r, Calls(r)[0])] else [Op(r, Stop), Op(r, Release)]
  }

  /** Every call of every resource in `order`, block after block. */
  function AllOps(order: seq<Resource>): seq<Op> {
    if |order| == 0 then [] else AllOps(order[..|order| - 1]) + Block(order[|order| - 1])
  }

  lemma AllOpsSnoc(order: seq<Resource>, r: Resource)
    ensures AllOps(order + [r]) == AllOps(order) + Block(r)
  {
    assert (order + [r])[..|order|] == order;
  }

  /** When everything was acquired and nothing throws, every call of every
      try block is made, in order, and nothing is rethrown. */
  lemma {:induction false} NoFailureMakesEveryCall(order: seq<Resource>, held: set<Resource>)
    requires forall r :: r in order ==> r in held
    ensures ReleaseAll(order, held, map[]) == Teardown(AllOps(order), None)
  {
    if |order| > 0 {
      var pre := order[..|order| - 1];
      var r := order[|order| - 1];
      assert forall x :: x in pre ==> x in order;
      NoFailureMakesEveryCall(pre, held);
      AttemptAll(r, map[]);
      assert r in held;
      var a := Attempt(r, Calls(r), map[]);
      assert ReleaseAll(order, held, map[]).attempted == AllOps(pre) + a;
    }
  }

  /** The calls of ATranscodeTest's teardown when nothing throws. */
  lemma TranscodeOps()
    ensures AllOps(TranscodeOrder) ==
            [Op(VideoExtractor, Release), Op(AudioExtractor, Release),
             Op(VideoDecoder, Stop), Op(VideoDecoder, Release),
             Op(VideoEncoder, Stop), Op(VideoEncoder, Release),
             Op(AudioDecoder, Stop), Op(AudioDecoder, Release),
             Op(AudioEncoder, Stop), Op(AudioEncoder, Release),
             Op(MuxerResource, Stop), Op(MuxerResource, Release)]
  {
    var p1 := [] + [VideoExtractor];
    var p2 := p1 + [AudioExtractor];
    var p3 := p2 + [VideoDecoder];
    var p4 := p3 + [VideoEncoder];
    var p5 := p4 + [AudioDecoder];
    var p6 := p5 + [AudioEncoder];
    assert TranscodeOrder == p6 + [MuxerResource];
    AllOpsSnoc([], VideoExtractor);
    AllOpsSnoc(p1, AudioExtractor);
    var extractors := [Op(VideoExtractor, Release), Op(AudioExtractor, Release)];
    assert AllOps(p2) == extractors;
    AllOpsSnoc(p2, VideoDecoder);
    AllOpsSnoc(p3, VideoEncoder);
    var video := [Op(VideoDecoder, Stop), Op(VideoDecoder, Release), Op(VideoEncoder, Stop), Op(VideoEncoder, Release)];
    assert AllOps(p4) == extractors + video;
    AllOpsSnoc(p4, AudioDecoder);
    AllOpsSnoc(p5, AudioEncoder);
    var audio := [Op(AudioDecoder, Stop), Op(AudioDecoder, Release), Op(AudioEncoder, Stop), Op(AudioEncoder, Release)];
    assert AllOps(p6) == extractors + video + audio;
    AllOpsSnoc(p6, MuxerResource);
  }

  /** With everything acquired and nothing failing, ATranscodeTest makes
      exactly these calls, in this order. */
  lemma TranscodeTeardownOrder(held: set<Resource>)
    requires forall r :: r in TranscodeOrder ==> r in held
    ensures ReleaseAll(TranscodeOrder, held, map[]) ==
            Teardown([Op(VideoExtractor, Release), Op(AudioExtractor, Release),
                      Op(VideoDecoder, Stop), Op(VideoDecoder, Release),
                      Op(VideoEncoder, Stop), Op(VideoEncoder, Release),
                      Op(AudioDecoder, Stop), Op(AudioDecoder, Release),
                      Op(AudioEncoder, Stop), Op(AudioEncoder, Release),
                      Op(MuxerResource, Stop), Op(MuxerResource, Release)], None)
  {
    NoFailureMakesEveryCall(TranscodeOrder, held);
    TranscodeOps();
  }

  /** A codec whose stop() throws is never released: the exception ends its
      try block. The other blocks still run (EveryHeldResourceAttempted). */
  lemma {:induction false} StopFailureSkipsRelease(order: seq<Resource>, held: set<Resource>, fails: map<Op, int>, r: Resource)
    requires Calls(r) == [Stop, Release] && Op(r, Stop) in fails
    ensures Op(r, Release) !in ReleaseAll(order, held, fails).attempted
  {
    if |order| > 0 {
      StopFailureSkipsRelease(order[..|order| - 1], held, fails, r);
    }
  }
}
