/** The usage protocol of android.media.MediaMuxer as the tests rely on it:
    tracks are added before `start()`, `start()` is called once, and samples
    are written only after `start()` and only to a track that was added.
    `addTrack` hands out track indices 0, 1, ... in call order. Any other
    use throws IllegalStateException; the model records it as `Misused`. */
module Muxer {
  import opened Common

  datatype MuxerState = Configuring(tracks: nat) | Started(tracks: nat) | Misused

  /** The muxer's state after one action. */
  function MuxerStep(s: MuxerState, a: Action): (t: MuxerState)
    ensures !IsMuxerAction(a) ==> t == s
    ensures s.Misused? ==> t.Misused?
    // a write is accepted only after start and only for an added track
    ensures a.WriteSample? ==> (!t.Misused? <==> s.Started? && 0 <= a.track < s.tracks)
    // start and addTrack are accepted only before start
    ensures a.StartMuxer? || a.AddTrack? ==> (!t.Misused? <==> s.Configuring?)
    ensures a.StartMuxer? && s.Configuring? ==> t == Started(s.tracks)
    ensures a.AddTrack? && s.Configuring? ==> t == Configuring(s.tracks + 1)
  {
    match s
    case Misused => Misused
    case Configuring(n) =>
      (match a
       case AddTrack(_) => Configuring(n + 1)
       case StartMuxer => Started(n)
       case WriteSample(_, _, _) => Misused
       case _ => s)
    case Started(n) =>
      (match a
       case AddTrack(_) => Misused
       case StartMuxer => Misused
       case WriteSample(track, _, _) => if 0 <= track < n then s else Misused
       case _ => s)
  }

  /** The muxer's state after the actions `acts`, starting in `s`. */
  function MuxerRun(s: MuxerState, acts: seq<Action>): MuxerState {
    if |acts| == 0 then s else MuxerStep(MuxerRun(s, acts[..|acts| - 1]), acts[|acts| - 1])
  }

  const Fresh: MuxerState := Configuring(0)

  /** A log that never violates the muxer's protocol. */
  predicate WellUsed(log: seq<Action>) {
    !MuxerRun(Fresh, log).Misused?
  }

  lemma {:induction false} MuxerRunAppend(s: MuxerState, x: seq<Action>, y: seq<Action>)
    ensures MuxerRun(s, x + y) == MuxerRun(MuxerRun(s, x), y)
    decreases |y|
  {
    if |y| == 0 {
      assert x + y == x;
    } else {
      assert (x + y)[..|x + y| - 1] == x + y[..|y| - 1];
      MuxerRunAppend(s, x, y[..|y| - 1]);
    }
  }

  /** Actions that do not touch the muxer leave its state alone. */
  lemma {:induction false} MuxerRunCodecOnly(s: MuxerState, acts: seq<Action>)
    requires CodecOnly(acts)
    ensures MuxerRun(s, acts) == s
  {
    if |acts| > 0 {
      MuxerRunCodecOnly(s, acts[..|acts| - 1]);
    }
  }

  /** Misuse cannot be undone. */
  lemma {:induction false} MisuseIsFinal(s: MuxerState, acts: seq<Action>)
    requires s.Misused?
    ensures MuxerRun(s, acts).Misused?
  {
    if |acts| > 0 {
      MisuseIsFinal(s, acts[..|acts| - 1]);
    }
  }

  /** Every prefix of a well-used log is well used. */
  lemma PrefixWellUsed(log: seq<Action>, j: nat)
    requires j <= |log| && WellUsed(log)
    ensures WellUsed(log[..j])
  {
    assert log == log[..j] + log[j..];
    MuxerRunAppend(Fresh, log[..j], log[j..]);
    if MuxerRun(Fresh, log[..j]).Misused? {
      MisuseIsFinal(MuxerRun(Fresh, log[..j]), log[j..]);
    }
  }

  /** From the fresh muxer, the state is Started exactly when `start()` occurs in the log. */
  lemma {:induction false} StartedIffStartLogged(log: seq<Action>)
    requires WellUsed(log)
    ensures MuxerRun(Fresh, log).Started? <==> StartMuxer in log
  {
    if |log| > 0 {
      var pre := log[..|log| - 1];
      PrefixWellUsed(log, |log| - 1);
      StartedIffStartLogged(pre);
      assert log == pre + [log[|log| - 1]];
    }
  }

  /** In a well-used log, every write comes after a `start()`, `start()`
      occurs at most once, and no track is added after it. */
  lemma WellUsedOrdering(log: seq<Action>)
    requires WellUsed(log)
    ensures forall j :: 0 <= j < |log| && log[j].WriteSample? ==> StartMuxer in log[..j]
    ensures forall i, j :: 0 <= i < j < |log| && log[i].StartMuxer? ==> !log[j].StartMuxer? && !log[j].AddTrack?
  {
    forall j | 0 <= j < |log| && (log[j].WriteSample? || log[j].StartMuxer? || log[j].AddTrack?)
      ensures log[j].WriteSample? ==> StartMuxer in log[..j]
      ensures log[j].StartMuxer? || log[j].AddTrack? ==> StartMuxer !in log[..j]
    {
      PrefixWellUsed(log, j + 1);
      assert log[..j + 1][..j] == log[..j];
      PrefixWellUsed(log, j);
      StartedIffStartLogged(log[..j]);
    }
    forall i, j | 0 <= i < j < |log| && log[i].StartMuxer?
      ensures !log[j].StartMuxer? && !log[j].AddTrack?
    {
      assert log[..j][i] == log[i];
    }
  }

  /** A start before any track is legal, but then no write can succeed. */
  lemma StartWithoutTracksRejectsWrites(size: int, pts: int)
    ensures WellUsed([StartMuxer])
    ensures !WellUsed([StartMuxer, WriteSample(0, size, pts)])
  {
    assert [StartMuxer, WriteSample(0, size, pts)][..1] == [StartMuxer];
    assert [StartMuxer][..0] == [];
  }
}
