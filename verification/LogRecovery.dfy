/**
 Recovery of the write-ahead log from its bytes. On every byte prefix of a log it
 gives what replaying the complete frames gives, which is the form in which the
 durability engine knows it, if and only if these frames are within the limits
 of the reader; otherwise it fails.
 */
module LogRecovery {
  import opened Base
  import opened Bytes
  import opened Collections
  import opened Durability
  import opened ExactReplays
  import opened Framing
  import opened WalCodec

  /** The collection and the IDs touched so far. */
  type Progress = (Coll, set<Id>)

  /** One turn of `recover`. */
  function ApplyNext(pf: Platform, cfg: Config): (Progress, Payload) -> Result<Progress> {
    (s: Progress, p: Payload) => Extend(s, ApplyPayload(pf, cfg, s.0, p))
  }

  function Extend(s: Progress, step: Result<Progress>): Result<Progress> {
    if step.Err? then step else Ok((step.value.0, s.1 + step.value.1))
  }

  ghost function Payloads(pf: Platform, cfg: Config, wal: seq<Frame>): seq<Payload> {
    seq(|wal|, i requires 0 <= i < |wal| => EncodePayload(pf, cfg.dimension, wal[i]))
  }

  /** Consecutive frames the log was given to write. */
  ghost predicate LogWritable(pf: Platform, cfg: Config, wal: seq<Frame>, first: nat) {
    forall i {:trigger wal[i]} :: 0 <= i < |wal| ==>
      && FrameWritable(pf, cfg, wal[i]) && wal[i].sequence == first + i
      && |EncodePayload(pf, cfg.dimension, wal[i])| < U32_LIMIT
  }

  /** A frame the reader accepts; it never looks into one that the collection already holds. */
  ghost predicate FrameWithin(fmt: Format, pf: Platform, cfg: Config, start: nat, frame: Frame) {
    && |EncodePayload(pf, cfg.dimension, frame)| <= fmt.limit
    && (frame.sequence > start ==> BatchWithin(pf, frame.mutation))
  }

  ghost predicate LogWithin(fmt: Format, pf: Platform, cfg: Config, start: nat, wal: seq<Frame>) {
    forall i {:trigger FrameWithin(fmt, pf, cfg, start, wal[i])} ::
      0 <= i < |wal| ==> FrameWithin(fmt, pf, cfg, start, wal[i])
  }

  type Replayer = (Progress, Frame) -> Result<Progress>

  function ReplayNext(cfg: Config): Replayer {
    (s: Progress, frame: Frame) => Extend(s, ReplayFrame(cfg, s.0, frame))
  }

  /** `ReplayWal` peels frames from the end; recovery meets them from the front. */
  ghost function ReplayOn(replay: Replayer, s: Progress, wal: seq<Frame>): Result<Progress>
    decreases |wal|
  {
    if wal == [] then Ok(s)
    else
      var t := replay(s, wal[0]);
      if t.Err? then t else ReplayOn(replay, t.value, wal[1..])
  }

  lemma {:induction false} ReplayOnLast(replay: Replayer, s: Progress, wal: seq<Frame>)
    requires wal != []
    ensures var before := ReplayOn(replay, s, wal[..|wal| - 1]);
      ReplayOn(replay, s, wal) == if before.Err? then before else replay(before.value, wal[|wal| - 1])
    decreases |wal|
  {
    var t := replay(s, wal[0]);
    if |wal| > 1 && t.Ok? {
      ReplayOnLast(replay, t.value, wal[1..]);
      assert wal[1..][..|wal| - 2] == wal[..|wal| - 1][1..];
    }
  }

  lemma {:induction false} ReplayOnIsReplayWal(cfg: Config, start: Coll, wal: seq<Frame>)
    ensures ReplayOn(ReplayNext(cfg), (start, {}), wal) == ReplayWal(cfg, start, wal)
    decreases |wal|
  {
    if wal != [] {
      ReplayOnIsReplayWal(cfg, start, wal[..|wal| - 1]);
      ReplayOnLast(ReplayNext(cfg), (start, {}), wal);
    }
  }

  type Applier = (Progress, Payload) -> Result<Progress>

  /** The next frame is replayed, or skipped, unless it is over a limit. */
  ghost predicate AppliesFrame(
      pf: Platform, cfg: Config, apply: Applier, replay: Replayer, s: Progress, frame: Frame)
  {
    var p, next := EncodePayload(pf, cfg.dimension, frame), replay(s, frame);
    && (next.Ok? ==>
          next.value.0.sequence == if frame.sequence <= s.0.sequence then s.0.sequence else frame.sequence)
    && (if frame.sequence > s.0.sequence ==> BatchWithin(pf, frame.mutation) then apply(s, p) == next
        else apply(s, p).Err?)
  }

  ghost predicate AppliesFrames(pf: Platform, cfg: Config, apply: Applier, replay: Replayer) {
    forall s: Progress, frame: Frame {:trigger AppliesFrame(pf, cfg, apply, replay, s, frame)} ::
      FrameWritable(pf, cfg, frame) && frame.sequence <= s.0.sequence + 1 ==>
        AppliesFrame(pf, cfg, apply, replay, s, frame)
  }

  lemma RecoveryAppliesFrames(pf: Platform, cfg: Config)
    ensures AppliesFrames(pf, cfg, ApplyNext(pf, cfg), ReplayNext(cfg))
  {
    forall s: Progress, frame: Frame | FrameWritable(pf, cfg, frame) && frame.sequence <= s.0.sequence + 1
      ensures AppliesFrame(pf, cfg, ApplyNext(pf, cfg), ReplayNext(cfg), s, frame)
    {
      PayloadReplaysIff(pf, cfg, s.0, frame);
    }
  }

  /** What the frames behind the first one have to be within, once it is replayed. */
  ghost predicate RestWithin(fmt: Format, pf: Platform, cfg: Config, s: Progress, wal: seq<Frame>, first: nat)
    requires wal != []
  {
    LogWithin(fmt, pf, cfg, if first <= s.0.sequence then s.0.sequence else first, wal[1..])
  }

  /** The first frame of a log and the frames behind it. */
  lemma FirstApplies(
      fmt: Format, pf: Platform, cfg: Config, apply: Applier, replay: Replayer, s: Progress, wal: seq<Frame>,
      first: nat)
    requires LogWritable(pf, cfg, wal, first) && first <= s.0.sequence + 1 && AppliesFrames(pf, cfg, apply, replay)
    requires wal != []
    ensures var ps, next := Payloads(pf, cfg, wal), replay(s, wal[0]);
      && ps[1..] == Payloads(pf, cfg, wal[1..]) && LogWritable(pf, cfg, wal[1..], first + 1)
      && (LogWithin(fmt, pf, cfg, s.0.sequence, wal) <==>
            FrameWithin(fmt, pf, cfg, s.0.sequence, wal[0]) && RestWithin(fmt, pf, cfg, s, wal, first))
      && (FrameWithin(fmt, pf, cfg, s.0.sequence, wal[0]) ==> |ps[0]| <= fmt.limit && apply(s, ps[0]) == next)
      && (!FrameWithin(fmt, pf, cfg, s.0.sequence, wal[0]) ==> |ps[0]| > fmt.limit || apply(s, ps[0]).Err?)
      && (next.Ok? ==>
            next.value.0.sequence == if first <= s.0.sequence then s.0.sequence else first)
  {
    assert AppliesFrame(pf, cfg, apply, replay, s, wal[0]);
    WithinSplits(fmt, pf, cfg, s.0.sequence, if first <= s.0.sequence then s.0.sequence else first, wal, first);
    assert Payloads(pf, cfg, wal)[1..] == Payloads(pf, cfg, wal[1..]);
  }

  lemma {:induction false} LogApplies(
      fmt: Format, pf: Platform, cfg: Config, apply: Applier, replay: Replayer, s: Progress, wal: seq<Frame>,
      first: nat)
    requires LogWritable(pf, cfg, wal, first) && first <= s.0.sequence + 1 && AppliesFrames(pf, cfg, apply, replay)
    ensures var applied := ApplyFitting(fmt, apply, s, Payloads(pf, cfg, wal));
      if LogWithin(fmt, pf, cfg, s.0.sequence, wal) then applied == ReplayOn(replay, s, wal) else applied.Err?
    decreases |wal|
  {
    if wal != [] {
      FirstApplies(fmt, pf, cfg, apply, replay, s, wal, first);
      var next := replay(s, wal[0]);
      if FrameWithin(fmt, pf, cfg, s.0.sequence, wal[0]) && next.Ok? {
        LogApplies(fmt, pf, cfg, apply, replay, next.value, wal[1..], first + 1);
      }
    }
  }

  /** What recovery makes of a log that is followed by nothing, or by a piece of a frame. */
  lemma LogOutcome(
      fmt: Format, pf: Platform, cfg: Config, start: Coll, wal: seq<Frame>, first: nat, refused: bool, length: nat)
    requires LogWritable(pf, cfg, wal, first) && first <= start.sequence + 1
    ensures var applied := ApplyFitting(fmt, ApplyNext(pf, cfg), (start, {}), Payloads(pf, cfg, wal));
      if LogWithin(fmt, pf, cfg, start.sequence, wal) && !refused
      then Outcome(applied, refused, length) == Outcome(ReplayWal(cfg, start, wal), false, length)
      else Outcome(applied, refused, length).Err?
  {
    RecoveryAppliesFrames(pf, cfg);
    LogApplies(fmt, pf, cfg, ApplyNext(pf, cfg), ReplayNext(cfg), (start, {}), wal, first);
    ReplayOnIsReplayWal(cfg, start, wal);
  }

  lemma WithinSplits(fmt: Format, pf: Platform, cfg: Config, start: nat, next: nat, wal: seq<Frame>, first: nat)
    requires LogWritable(pf, cfg, wal, first) && wal != [] && first <= start + 1
    requires next == if first <= start then start else first
    ensures LogWithin(fmt, pf, cfg, start, wal)
      <==> FrameWithin(fmt, pf, cfg, start, wal[0]) && LogWithin(fmt, pf, cfg, next, wal[1..])
  {
    forall i | 1 <= i < |wal|
      ensures FrameWithin(fmt, pf, cfg, start, wal[i]) <==> FrameWithin(fmt, pf, cfg, next, wal[1..][i - 1])
    {
      assert wal[1..][i - 1] == wal[i] && wal[i].sequence == first + i;
    }
    if LogWithin(fmt, pf, cfg, start, wal) {
      forall i | 0 <= i < |wal[1..]| ensures FrameWithin(fmt, pf, cfg, next, wal[1..][i]) {
        assert FrameWithin(fmt, pf, cfg, start, wal[i + 1]);
      }
    }
    if FrameWithin(fmt, pf, cfg, start, wal[0]) && LogWithin(fmt, pf, cfg, next, wal[1..]) {
      forall i | 0 <= i < |wal| ensures FrameWithin(fmt, pf, cfg, start, wal[i]) {
        if i > 0 { assert FrameWithin(fmt, pf, cfg, next, wal[1..][i - 1]); }
      }
    }
  }

  lemma PrefixPayloads(pf: Platform, cfg: Config, wal: seq<Frame>, k: nat)
    requires k < |wal|
    ensures Payloads(pf, cfg, wal[..k]) == Payloads(pf, cfg, wal)[..k]
    ensures Payloads(pf, cfg, wal)[k] == EncodePayload(pf, cfg.dimension, wal[k])
  {
  }

  /** The bytes of a log. */
  ghost function LogBytes(fmt: Format, pf: Platform, cfg: Config, wal: seq<Frame>, first: nat): seq<byte>
    requires LogWritable(pf, cfg, wal, first)
  {
    assert AllWritable(Payloads(pf, cfg, wal)) by {
      forall i | 0 <= i < |wal| ensures |Payloads(pf, cfg, wal)[i]| < U32_LIMIT {
        assert FrameWritable(pf, cfg, wal[i]);
      }
    }
    EncodeLog(fmt, Payloads(pf, cfg, wal))
  }

  /**
   The whole file replays every frame if and only if the frames are within the limits;
   otherwise the collection cannot be opened.
   */
  lemma WholeLogReplaysIff(fmt: Format, pf: Platform, cfg: Config, start: Coll, wal: seq<Frame>, first: nat)
    requires LogWritable(pf, cfg, wal, first) && first <= start.sequence + 1 && fmt.header != []
    ensures var bytes := LogBytes(fmt, pf, cfg, wal, first);
      var found := RecoveryOf(fmt, ApplyNext(pf, cfg))((start, {}), 0, bytes);
      if LogWithin(fmt, pf, cfg, start.sequence, wal) then found == Outcome(ReplayWal(cfg, start, wal), false, |bytes|)
      else found.Err?
  {
    WholeFileDecides(fmt, ApplyNext(pf, cfg), (start, {}), Payloads(pf, cfg, wal));
    LogOutcome(fmt, pf, cfg, start, wal, first, false, |LogBytes(fmt, pf, cfg, wal, first)|);
  }

  /**
   A crash while appending leaves the log followed by a piece of a frame, which may be empty.
   Recovery replays the log if and only if it is within the limits and no oversized length of
   the piece can be read.
   */
  lemma TornLogReplaysIff(
      fmt: Format, pf: Platform, cfg: Config, start: Coll, wal: seq<Frame>, first: nat, p: Payload, n: nat)
    requires LogWritable(pf, cfg, wal, first) && first <= start.sequence + 1
    requires |p| < U32_LIMIT && n < |EncodeFrame(fmt, p)|
    ensures var log := LogBytes(fmt, pf, cfg, wal, first);
      var found := RecoveryOf(fmt, ApplyNext(pf, cfg))((start, {}), 0, log + EncodeFrame(fmt, p)[..n]);
      if LogWithin(fmt, pf, cfg, start.sequence, wal) && !RefusesTail(fmt, p, n)
      then found == Outcome(ReplayWal(cfg, start, wal), false, |log|)
      else found.Err?
  {
    var apply, refused := ApplyNext(pf, cfg), RefusesTail(fmt, p, n);
    var length := |LogBytes(fmt, pf, cfg, wal, first)|;
    RecoveryReadsFrames(fmt, apply);
    RecoveryEndsTorn(fmt, apply, p, n);
    var ps, piece := Payloads(pf, cfg, wal), EncodeFrame(fmt, p)[..n];
    TailDecides(fmt, apply, RecoveryOf(fmt, apply), (start, {}), ps, piece, refused);
    LogOutcome(fmt, pf, cfg, start, wal, first, refused, length);
  }

  /**
   A crash may cut the log anywhere. Cut inside frame `k`, recovery replays exactly the
   first `k` frames and truncates the file behind them, if and only if these frames are
   within the limits and no oversized length of frame `k` is left to be read.
   */
  lemma CutLogReplaysIff(
      fmt: Format, pf: Platform, cfg: Config, start: Coll, wal: seq<Frame>, first: nat, k: nat, n: nat)
    requires LogWritable(pf, cfg, wal, first) && first <= start.sequence + 1
    requires k < |wal| && n < |EncodeFrame(fmt, EncodePayload(pf, cfg.dimension, wal[k]))|
    ensures var whole, kept := LogBytes(fmt, pf, cfg, wal, first), |LogBytes(fmt, pf, cfg, wal[..k], first)|;
      && kept + n <= |whole|
      && var found := RecoveryOf(fmt, ApplyNext(pf, cfg))((start, {}), 0, whole[..kept + n]);
      if LogWithin(fmt, pf, cfg, start.sequence, wal[..k])
        && !RefusesTail(fmt, EncodePayload(pf, cfg.dimension, wal[k]), n)
      then found == Outcome(ReplayWal(cfg, start, wal[..k]), false, kept)
      else found.Err?
  {
    CutBytes(fmt, pf, cfg, wal, first, k, n);
    TornLogReplaysIff(fmt, pf, cfg, start, wal[..k], first, EncodePayload(pf, cfg.dimension, wal[k]), n);
  }

  lemma CutBytes(fmt: Format, pf: Platform, cfg: Config, wal: seq<Frame>, first: nat, k: nat, n: nat)
    requires LogWritable(pf, cfg, wal, first)
    requires k < |wal| && n < |EncodeFrame(fmt, EncodePayload(pf, cfg.dimension, wal[k]))|
    ensures var whole, before := LogBytes(fmt, pf, cfg, wal, first), LogBytes(fmt, pf, cfg, wal[..k], first);
      && |before| + n <= |whole|
      && whole[..|before| + n] == before + EncodeFrame(fmt, EncodePayload(pf, cfg.dimension, wal[k]))[..n]
  {
    PrefixPayloads(pf, cfg, wal, k);
    CutLog(fmt, Payloads(pf, cfg, wal), k, n);
  }

  /**
   A batch that a collection acknowledges is replayed from its bytes to what was acknowledged if
   and only if it is within the limits and stable.
   */
  lemma AcknowledgedBatchReplaysIff(pf: Platform, cfg: Config, coll: Coll, batch: Mutation)
    requires EncoderChecks(pf, cfg) && coll.sequence < U64_MAX
    requires Prepare(cfg, batch).Ok? && cfg.encodable(Prepare(cfg, batch).value)
    ensures var m, n := Prepare(cfg, batch).value, coll.sequence + 1;
      var applied := ApplyPayload(pf, cfg, coll, EncodePayload(pf, cfg.dimension, Frame(n, m)));
      applied == Ok((Apply(coll, m, n), Touched(m))) <==> BatchWithin(pf, m) && Stable(cfg, m)
  {
    var m := Prepare(cfg, batch).value;
    PayloadReplaysIff(pf, cfg, coll, Frame(coll.sequence + 1, m));
    FrameReplaysIff(cfg, coll, m);
  }
}
