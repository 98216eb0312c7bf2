/**
 When reopening gives the very vectors that were acknowledged. The log stores
 prepared batches and replay prepares them again. Over all runs the reopened
 collection equals the acknowledged one if and only if every publication is safe
 and every written batch is `Stable`; normalising to unit length, as the cosine
 metric does in single precision, is not stable.
 */
module ExactReplays {
  import opened Base
  import opened Collections
  import opened Durability
  import opened CrashSafety
  import opened PublishSafety

  // ----- one batch -------------------------------------------------------

  /** An acknowledged frame replays to what was acknowledged if and only if its batch is stable. */
  lemma FrameReplaysIff(cfg: Config, coll: Coll, m: Mutation)
    ensures var n := coll.sequence + 1;
      ReplayFrame(cfg, coll, Frame(n, m)) == Ok((Apply(coll, m, n), Touched(m))) <==> Stable(cfg, m)
  {
    if Prepare(cfg, m).Ok? { StableIff(cfg, coll, m, coll.sequence + 1); }
  }

  // ----- one reopening ---------------------------------------------------

  ghost predicate RestoresExactly(cfg: Config, disk: Disk, h: seq<Mutation>) {
    Recover(cfg, disk).Ok? && Recover(cfg, disk).value.coll == At(h, |h|)
  }

  /** The frames before number `n` that only the log holds are stable. */
  predicate StableBefore(cfg: Config, disk: Disk, start: nat, n: nat) {
    forall i :: 0 <= i < |disk.wal| && ManifestSequence(disk.manifest) <= start + i < n ==>
      Stable(cfg, disk.wal[i].mutation)
  }

  /** Stable batches have the effect they had when they were acknowledged. */
  lemma {:induction false} StableReplays(cfg: Config, h: seq<Mutation>, disk: Disk, start: nat, n: nat)
    requires WalInv(cfg, h, disk.wal, start) && start <= ManifestSequence(disk.manifest) <= n <= |h|
    requires StableBefore(cfg, disk, start, n)
    ensures At(Replayed(cfg, h, disk, start), n) == At(h, n)
    decreases n
  {
    var g := Replayed(cfg, h, disk, start);
    if n == ManifestSequence(disk.manifest) {
      AtPrefix(g, h, n);
    } else {
      StableReplays(cfg, h, disk, start, n - 1);
      var logged := disk.wal[n - 1 - start].mutation;
      assert Stable(cfg, logged) && LoggedAs(cfg, logged, h[n - 1]);
      assert g[n - 1] == Again(cfg, logged);
      StableApplies(cfg, At(h, n - 1), logged, h[n - 1], n);
    }
  }

  lemma StableApplies(cfg: Config, c: Coll, logged: Mutation, applied: Mutation, n: nat)
    requires Stable(cfg, logged) && LoggedAs(cfg, logged, applied)
    ensures Apply(c, Again(cfg, logged), n) == Apply(c, applied, n)
  {
    StableIff(cfg, c, logged, n);
  }

  ghost predicate LogStable(cfg: Config, disk: Disk, start: nat) {
    StableBefore(cfg, disk, start, start + |disk.wal|)
  }

  lemma StableRestores(cfg: Config, h: seq<Mutation>, disk: Disk, start: nat)
    requires DiskInv(cfg, h, disk, start) && LogStable(cfg, disk, start)
    ensures RestoresExactly(cfg, disk, h)
  {
    RecoverRestores(cfg, h, disk, start);
    StableReplays(cfg, h, disk, start, |h|);
  }

  lemma ReplayedLast(cfg: Config, g: seq<Mutation>, disk: Disk, start: nat)
    requires start + |disk.wal| == |g| && disk.wal != [] && ManifestSequence(disk.manifest) < |g|
    ensures Replayed(cfg, g, disk, start)[|g| - 1] == Again(cfg, disk.wal[|disk.wal| - 1].mutation)
  {
  }

  lemma AtNext(g: seq<Mutation>, again: seq<Mutation>, n: nat, last: Mutation)
    requires n < |g| == |again| && At(again, n) == At(g, n) && again[n] == last
    ensures At(again, n + 1) == Apply(At(g, n), last, n + 1)
  {
  }

  /** Behind a stable log, the last frame is replayed on what was acknowledged. */
  lemma LastReplays(cfg: Config, g: seq<Mutation>, disk: Disk, start: nat)
    requires WalInv(cfg, g, disk.wal, start) && start <= ManifestSequence(disk.manifest) < |g| && disk.wal != []
    requires StableBefore(cfg, disk, start, |g| - 1) && disk.wal[|disk.wal| - 1].mutation == g[|g| - 1]
    ensures var n := |g| - 1;
      At(Replayed(cfg, g, disk, start), n + 1) == Apply(At(g, n), Again(cfg, g[n]), n + 1)
  {
    var n := |g| - 1;
    StableReplays(cfg, g, disk, start, n);
    ReplayedLast(cfg, g, disk, start);
    AtNext(g, Replayed(cfg, g, disk, start), n, Again(cfg, g[n]));
  }

  /**
   After a batch that is not stable, reopening fails or gives a different collection. It fails
   if and only if the second preparation refuses the batch.
   */
  lemma UnstableWriteDrifts(cfg: Config, s: System, batch: Mutation)
    requires Inv(cfg, s) && LogStable(cfg, s.disk, s.walStart) && Enabled(cfg, s, Write(batch))
    requires !Stable(cfg, Prepare(cfg, batch).value)
    ensures var t := Do(cfg, s, Write(batch));
      && !RestoresExactly(cfg, t.disk, t.history)
      && (Recover(cfg, t.disk).Err? <==> Prepare(cfg, Prepare(cfg, batch).value).Err?)
  {
    var t := Do(cfg, s, Write(batch));
    WriteKeeps(cfg, s, batch);
    WrittenLog(cfg, s, batch);
    RecoverRestores(cfg, t.history, t.disk, t.walStart);
    UnstableLastDrifts(cfg, t.history, t.disk, t.walStart);
  }

  lemma UnstableLastDrifts(cfg: Config, h: seq<Mutation>, disk: Disk, start: nat)
    requires WalInv(cfg, h, disk.wal, start) && disk.wal != [] && start <= ManifestSequence(disk.manifest) < |h|
    requires StableBefore(cfg, disk, start, |h| - 1) && Restores(cfg, disk, h, start)
    requires disk.wal[|disk.wal| - 1].mutation == h[|h| - 1] && !Stable(cfg, h[|h| - 1])
    ensures !RestoresExactly(cfg, disk, h)
  {
    var n := |h| - 1;
    LastReplays(cfg, h, disk, start);
    if Prepare(cfg, h[n]).Ok? {
      StableIff(cfg, At(h, n), h[n], n + 1);
    } else {
      assert !LogPrepares(cfg, disk, start);
    }
  }

  lemma WrittenLog(cfg: Config, s: System, batch: Mutation)
    requires Inv(cfg, s) && LogStable(cfg, s.disk, s.walStart) && Enabled(cfg, s, Write(batch))
    ensures var t := Do(cfg, s, Write(batch));
      && StableBefore(cfg, t.disk, t.walStart, |s.history|)
      && (LogPrepares(cfg, t.disk, t.walStart) <==> Prepare(cfg, Prepare(cfg, batch).value).Ok?)
      && (LogStable(cfg, t.disk, t.walStart) <==> Stable(cfg, Prepare(cfg, batch).value))
  {
    var t, k := Do(cfg, s, Write(batch)), |s.disk.wal|;
    assert t.disk.wal[k].mutation == Prepare(cfg, batch).value;
    forall i | 0 <= i < k && ManifestSequence(s.disk.manifest) <= s.walStart + i
      ensures t.disk.wal[i] == s.disk.wal[i] && Stable(cfg, t.disk.wal[i].mutation)
    {
      assert Stable(cfg, s.disk.wal[i].mutation);
    }
  }

  // ----- all runs --------------------------------------------------------

  ghost predicate PublishExact(cfg: Config, disk: Disk, seg: Segment, h: seq<Mutation>) {
    RestoresExactly(cfg, RenamedDisk(disk, seg), h) && RestoresExactly(cfg, SwappedDisk(disk, seg), h)
  }

  /** Each reopening would give exactly what was acknowledged, also at both boundaries of every publication. */
  ghost predicate AllExact(cfg: Config, s: System, run: seq<Step>)
    decreases |run|
  {
    && RestoresExactly(cfg, s.disk, s.history)
    && (run != [] ==>
          && Enabled(cfg, s, run[0])
          && (run[0].Rename? ==> PublishExact(cfg, s.disk, run[0].flush.segment, s.history))
          && AllExact(cfg, Do(cfg, s, run[0]), run[1..]))
  }

  predicate StableWrite(cfg: Config, step: Step) {
    step.Write? && Prepare(cfg, step.batch).Ok? ==> Stable(cfg, Prepare(cfg, step.batch).value)
  }

  predicate WritesStable(cfg: Config, run: seq<Step>) {
    forall i :: 0 <= i < |run| ==> StableWrite(cfg, run[i])
  }

  /** Only writes add to the log. */
  lemma StepKeepsStable(cfg: Config, s: System, step: Step)
    requires Inv(cfg, s) && LogStable(cfg, s.disk, s.walStart) && Enabled(cfg, s, step) && StableWrite(cfg, step)
    ensures var t := Do(cfg, s, step); LogStable(cfg, t.disk, t.walStart)
  {
    if step.Write? {
      WrittenLog(cfg, s, step.batch);
    } else {
      ManifestNeverRegresses(cfg, s, step);
    }
  }

  lemma SafePublishIsExact(cfg: Config, s: System, flush: Flush)
    requires Inv(cfg, s) && LogStable(cfg, s.disk, s.walStart) && Enabled(cfg, s, Rename(flush))
    requires SafeToPublish(s.disk.manifest, flush.segment)
    ensures PublishExact(cfg, s.disk, flush.segment, s.history)
  {
    var renamed := Do(cfg, s, Rename(flush));
    var swapped := Do(cfg, renamed, Swap);
    RenameKeeps(cfg, s, flush);
    SwapKeeps(cfg, renamed);
    StepKeepsStable(cfg, renamed, Swap);
    StableRestores(cfg, s.history, renamed.disk, s.walStart);
    StableRestores(cfg, s.history, swapped.disk, s.walStart);
  }

  lemma ExactPublishIff(cfg: Config, s: System, flush: Flush)
    requires Inv(cfg, s) && LogStable(cfg, s.disk, s.walStart) && Enabled(cfg, s, Rename(flush))
    ensures PublishExact(cfg, s.disk, flush.segment, s.history) <==> SafeToPublish(s.disk.manifest, flush.segment)
  {
    if SafeToPublish(s.disk.manifest, flush.segment) {
      SafePublishIsExact(cfg, s, flush);
    } else {
      UnsafePublishLoses(cfg, s, flush);
    }
  }

  /**
   Over every run of steps the code can take, each reopening gives exactly what was acknowledged
   if and only if every written batch is stable and every publication meets `SafeToPublish`.
   */
  lemma {:induction false} ExactRunsIff(cfg: Config, s: System, run: seq<Step>)
    requires Inv(cfg, s) && LogStable(cfg, s.disk, s.walStart) && Possible(cfg, s, run)
    ensures AllExact(cfg, s, run) <==> Legal(cfg, s, run) && WritesStable(cfg, run)
    decreases |run|
  {
    StableRestores(cfg, s.history, s.disk, s.walStart);
    if run != [] {
      var step, rest := run[0], run[1..];
      if step.Rename? { ExactPublishIff(cfg, s, step.flush); }
      WritesSplit(cfg, run);
      if Careful(s, step) {
        if StableWrite(cfg, step) {
          StepKeeps(cfg, s, step);
          StepKeepsStable(cfg, s, step);
          ExactRunsIff(cfg, Do(cfg, s, step), rest);
        } else {
          UnstableWriteDrifts(cfg, s, step.batch);
        }
      }
    }
  }

  lemma WritesSplit(cfg: Config, run: seq<Step>)
    requires run != []
    ensures WritesStable(cfg, run) <==> StableWrite(cfg, run[0]) && WritesStable(cfg, run[1..])
  {
    assert forall i :: 1 <= i < |run| ==> run[i] == run[1..][i - 1];
    if StableWrite(cfg, run[0]) && WritesStable(cfg, run[1..]) {
      forall i | 0 <= i < |run| ensures StableWrite(cfg, run[i]) {
        if i > 0 { assert StableWrite(cfg, run[1..][i - 1]); }
      }
    }
    if WritesStable(cfg, run) {
      forall i | 0 <= i < |run[1..]| ensures StableWrite(cfg, run[1..][i]) { assert StableWrite(cfg, run[i + 1]); }
    }
  }

  lemma FreshRunsAreExactIff(cfg: Config, run: seq<Step>)
    requires Possible(cfg, FRESH, run)
    ensures AllExact(cfg, FRESH, run) <==> Legal(cfg, FRESH, run) && WritesStable(cfg, run)
  {
    FreshIsSound(cfg);
    ExactRunsIff(cfg, FRESH, run);
  }

  /**
   One acknowledged upsert into an empty directory whose vector a second preparation changes or
   refuses: the reopened collection holds another vector, or there is none.
   */
  lemma SecondPreparationLoses(cfg: Config, p: UpsertPoint)
    requires p.id != "" && |p.vector| == cfg.dimension && cfg.prepare(p.vector).Some?
    requires var v := cfg.prepare(p.vector).value; cfg.prepare(v) != Some(v)
    ensures var run := [Write(Upsert([p])), Acknowledge];
      && Legal(cfg, FRESH, run)
      && var s := Run(cfg, FRESH, run);
      && s.acked == |s.history| == 1 && !RestoresExactly(cfg, s.disk, s.history)
      && (cfg.prepare(cfg.prepare(p.vector).value).None? ==> Recover(cfg, s.disk).Err?)
  {
    PreparedOne(cfg, p);
    var q := p.(vector := cfg.prepare(p.vector).value);
    PreparedOneAgain(cfg, q);
    FreshIsSound(cfg);
    WriteRunWorks(cfg, FRESH, Upsert([p]));
    UnstableWriteDrifts(cfg, FRESH, Upsert([p]));
  }

  lemma PreparedOne(cfg: Config, p: UpsertPoint)
    requires p.id != "" && |p.vector| == cfg.dimension && cfg.prepare(p.vector).Some?
    ensures Prepare(cfg, Upsert([p])) == Ok(Upsert([p.(vector := cfg.prepare(p.vector).value)]))
  {
    assert [p][..0] == [];
    assert PrepareBatch(cfg, []) == Ok([]);
    var q := p.(vector := cfg.prepare(p.vector).value);
    assert [] + [q] == [q];
    assert PrepareBatch(cfg, [p]) == Ok([q]);
  }

  lemma PreparedOneAgain(cfg: Config, q: UpsertPoint)
    requires cfg.prepare(q.vector) != Some(q.vector)
    ensures !Stable(cfg, Upsert([q]))
    ensures cfg.prepare(q.vector).None? ==> Prepare(cfg, Upsert([q])).Err?
  {
    assert IsLast([q], 0) && [q][..0] == [];
    assert PrepareBatch(cfg, []) == Ok([]);
  }
}
