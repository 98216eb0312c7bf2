/**
 An append that fails is cut off again, but the code ignores a failure of the
 cut. A complete frame may then stay in the log although its batch was reported as
 failed. The next acknowledged batch reuses its sequence number, and recovery
 replays the stranded frame and skips the acknowledged one.
 */
module FailedRollbacks {
  import opened Base
  import opened Collections
  import opened Durability
  import opened CrashSafety
  import opened PublishSafety
  import opened ExactReplays

  /** The append of `batch` reached the log, was reported as failed and could not be cut off. */
  function Stranded(cfg: Config, s: System, batch: Mutation): System
    requires Enabled(cfg, s, Write(batch))
  {
    Do(cfg, s, Write(batch)).(history := s.history, phase := Idle)
  }

  /** Another batch is written and acknowledged after it. */
  function WrittenAfter(cfg: Config, s: System, stranded: Mutation, batch: Mutation): System
    requires Enabled(cfg, s, Write(stranded)) && Enabled(cfg, s, Write(batch))
  {
    Do(cfg, Do(cfg, Stranded(cfg, s, stranded), Write(batch)), Acknowledge)
  }

  lemma RepeatedSequenceIsSkipped(cfg: Config, start: Coll, wal: seq<Frame>, frame: Frame)
    requires ReplayWal(cfg, start, wal).Ok? ==> frame.sequence <= ReplayWal(cfg, start, wal).value.0.sequence
    ensures ReplayWal(cfg, start, wal + [frame]) == ReplayWal(cfg, start, wal)
  {
    assert (wal + [frame])[..|wal|] == wal;
    var before := ReplayWal(cfg, start, wal);
    if before.Ok? { assert before.value.1 + {} == before.value.1; }
  }

  /** A frame whose sequence number is taken adds nothing to a sound log. */
  lemma RepeatedFrameIsSkipped(cfg: Config, h: seq<Mutation>, disk: Disk, start: nat, frame: Frame)
    requires DiskInv(cfg, h, disk, start) && frame.sequence <= |h|
    ensures Recover(cfg, disk.(wal := disk.wal + [frame])) == Recover(cfg, disk)
  {
    var base := At(h, ManifestSequence(disk.manifest));
    ReplayedAgrees(cfg, h, disk, start);
    ReplayHistory(cfg, Replayed(cfg, h, disk, start), disk.wal, start, ManifestSequence(disk.manifest));
    RepeatedSequenceIsSkipped(cfg, base, disk.wal, frame);
    match disk.manifest
    case None => assert base == EMPTY;
    case Some(m) => LoadChain(h, disk.files, m, |m.names|);
  }

  /**
   Recovery gives exactly what it would give had the failed batch been acknowledged and the
   acknowledged one never been written.
   */
  lemma StrandedFrameWins(cfg: Config, s: System, stranded: Mutation, batch: Mutation)
    requires Inv(cfg, s) && Enabled(cfg, s, Write(stranded)) && Enabled(cfg, s, Write(batch))
    ensures var t := WrittenAfter(cfg, s, stranded, batch);
      && t.acked == s.acked + 1 && t.history == s.history + [Again(cfg, batch)]
      && Recover(cfg, t.disk) == Recover(cfg, Do(cfg, s, Write(stranded)).disk)
  {
    var w := Do(cfg, s, Write(stranded));
    WriteKeeps(cfg, s, stranded);
    WrittenAfterIs(cfg, s, stranded, batch);
    RepeatedFrameIsSkipped(
      cfg, w.history, w.disk, w.walStart, Frame(|s.history| + 1, Prepare(cfg, batch).value));
  }

  lemma WrittenAfterIs(cfg: Config, s: System, stranded: Mutation, batch: Mutation)
    requires Enabled(cfg, s, Write(stranded)) && Enabled(cfg, s, Write(batch))
    requires s.memory.value.coll.sequence == |s.history|
    ensures var t, w := WrittenAfter(cfg, s, stranded, batch), Do(cfg, s, Write(stranded));
      var m := Prepare(cfg, batch).value;
      && t.acked == s.acked + 1 && t.history == s.history + [m]
      && t.disk == w.disk.(wal := w.disk.wal + [Frame(|s.history| + 1, m)])
  {
  }

  /** Replaying the stranded batch, on what was acknowledged before, has the effect of the acknowledged one. */
  ghost predicate SameEffect(cfg: Config, h: seq<Mutation>, stranded: Mutation, batch: Mutation) {
    Apply(At(h, |h|), Again(cfg, stranded), |h| + 1) == Apply(At(h, |h|), batch, |h| + 1)
  }

  /**
   The acknowledged batch survives a crash if and only if replaying the stranded one has its very
   effect, as when the same stable batch was tried again.
   */
  lemma StrandedIsHarmlessIff(cfg: Config, s: System, stranded: Mutation, batch: Mutation)
    requires Inv(cfg, s) && LogStable(cfg, s.disk, s.walStart)
    requires Enabled(cfg, s, Write(stranded)) && Enabled(cfg, s, Write(batch))
    requires Prepare(cfg, Again(cfg, stranded)).Ok?
    ensures RestoresExactly(cfg, WrittenAfter(cfg, s, stranded, batch).disk, s.history + [Again(cfg, batch)])
      <==> SameEffect(cfg, s.history, Again(cfg, stranded), Again(cfg, batch))
  {
    StrandedFrameWins(cfg, s, stranded, batch);
    WrittenDisk(cfg, s, stranded);
    var disk, other := WrittenAfter(cfg, s, stranded, batch).disk, Do(cfg, s, Write(stranded)).disk;
    StrandedDecides(cfg, s.history, Again(cfg, stranded), Again(cfg, batch), disk, other, s.walStart);
  }

  lemma StrandedDecides(
      cfg: Config, h: seq<Mutation>, stranded: Mutation, batch: Mutation, disk: Disk, other: Disk, start: nat)
    requires LastIsNew(cfg, h + [stranded], other, start) && Recover(cfg, disk) == Recover(cfg, other)
    ensures RestoresExactly(cfg, disk, h + [batch]) <==> SameEffect(cfg, h, stranded, batch)
  {
    LastRecovers(cfg, h + [stranded], other, start);
    AtPrefix(h + [stranded], h, |h|);
    SameEffectIff(cfg, disk, other, h, batch, Again(cfg, stranded));
  }

  lemma SameEffectIff(cfg: Config, disk: Disk, other: Disk, h: seq<Mutation>, m: Mutation, replayed: Mutation)
    requires Recover(cfg, disk) == Recover(cfg, other) && Recover(cfg, other).Ok?
    requires Recover(cfg, other).value.coll == Apply(At(h, |h|), replayed, |h| + 1)
    ensures RestoresExactly(cfg, disk, h + [m]) <==>
      Apply(At(h, |h|), replayed, |h| + 1) == Apply(At(h, |h|), m, |h| + 1)
  {
    AtExtends(h, m);
  }

  lemma WrittenDisk(cfg: Config, s: System, batch: Mutation)
    requires Inv(cfg, s) && LogStable(cfg, s.disk, s.walStart) && Enabled(cfg, s, Write(batch))
    requires Prepare(cfg, Again(cfg, batch)).Ok?
    ensures LastIsNew(cfg, s.history + [Again(cfg, batch)], Do(cfg, s, Write(batch)).disk, s.walStart)
  {
    WriteKeeps(cfg, s, batch);
    WrittenLog(cfg, s, batch);
  }

  /** The log is stable up to its last frame, and that one can be prepared. */
  ghost predicate LastIsNew(cfg: Config, g: seq<Mutation>, disk: Disk, start: nat) {
    && DiskInv(cfg, g, disk, start) && ManifestSequence(disk.manifest) < |g| && disk.wal != []
    && StableBefore(cfg, disk, start, |g| - 1) && LogPrepares(cfg, disk, start)
    && disk.wal[|disk.wal| - 1].mutation == g[|g| - 1] && Prepare(cfg, g[|g| - 1]).Ok?
  }

  lemma LastRecovers(cfg: Config, g: seq<Mutation>, disk: Disk, start: nat)
    requires LastIsNew(cfg, g, disk, start)
    ensures Recover(cfg, disk).Ok?
    ensures var n := |g| - 1;
      Recover(cfg, disk).value.coll == Apply(At(g, n), Prepare(cfg, g[n]).value, n + 1)
  {
    RecoverRestores(cfg, g, disk, start);
    LastReplays(cfg, g, disk, start);
  }

  lemma AtExtends(h: seq<Mutation>, m: Mutation)
    ensures At(h + [m], |h| + 1) == Apply(At(h, |h|), m, |h| + 1)
  {
    AtPrefix(h + [m], h, |h|);
  }

  /** An uninterrupted flush before the next batch empties the log and leaves no trace of it. */
  lemma FlushingClears(cfg: Config, s: System, stranded: Mutation)
    requires Inv(cfg, s) && Enabled(cfg, s, Write(stranded))
    requires SafeToPublish(s.disk.manifest, SnapshotOf(s.memory.value).segment)
    ensures Flushed(Stranded(cfg, s, stranded)) == Flushed(s) && Inv(cfg, Flushed(s))
  {
    FlushRunWorks(cfg, s);
    RunKeeps(cfg, s, FlushRun(SnapshotOf(s.memory.value)));
  }
}
