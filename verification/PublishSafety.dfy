/**
 When publishing a flush is crash safe. The code rejects only flushes older
 than the manifest; `SafeToPublish` is the exact condition, it is what the
 guard of `PersistentCollection::flush` establishes for a single owner, and
 `SharedCollection::flush`, which has no guard, can violate it.
 */
module PublishSafety {
  import opened Base
  import opened Collections
  import opened Durability
  import opened CrashSafety

  function RenamedDisk(disk: Disk, seg: Segment): Disk {
    disk.(files := disk.files[seg.sequence := seg])
  }

  function SwappedDisk(disk: Disk, seg: Segment): Disk {
    RenamedDisk(disk, seg).(manifest := Some(NextManifest(disk.manifest, seg)))
  }

  /** A crash after the rename, or after the manifest swap, loses nothing. */
  ghost predicate PublishRestores(cfg: Config, disk: Disk, seg: Segment, h: seq<Mutation>, start: nat) {
    Restores(cfg, RenamedDisk(disk, seg), h, start) && Restores(cfg, SwappedDisk(disk, seg), h, start)
  }

  /** Publishing loses nothing at any boundary if and only if `SafeToPublish` holds beforehand. */
  lemma PublishIsSafeIff(cfg: Config, s: System, flush: Flush)
    requires Inv(cfg, s) && Enabled(cfg, s, Rename(flush))
    ensures PublishRestores(cfg, s.disk, flush.segment, s.history, s.walStart)
      <==> SafeToPublish(s.disk.manifest, flush.segment)
  {
    if SafeToPublish(s.disk.manifest, flush.segment) {
      SafePublishRestores(cfg, s, flush);
    } else {
      UnsafePublishLoses(cfg, s, flush);
    }
  }

  lemma SafePublishRestores(cfg: Config, s: System, flush: Flush)
    requires Inv(cfg, s) && Enabled(cfg, s, Rename(flush))
    requires SafeToPublish(s.disk.manifest, flush.segment)
    ensures PublishRestores(cfg, s.disk, flush.segment, s.history, s.walStart)
  {
    var renamed := Do(cfg, s, Rename(flush));
    RenameKeeps(cfg, s, flush);
    RecoverRestores(cfg, renamed.history, renamed.disk, renamed.walStart);
    var swapped := Do(cfg, renamed, Swap);
    SwapKeeps(cfg, renamed);
    RecoverRestores(cfg, swapped.history, swapped.disk, swapped.walStart);
  }

  lemma UnsafePublishLoses(cfg: Config, s: System, flush: Flush)
    requires Inv(cfg, s) && Enabled(cfg, s, Rename(flush))
    requires !SafeToPublish(s.disk.manifest, flush.segment)
    ensures flush.segment.full ==> Recover(cfg, RenamedDisk(s.disk, flush.segment)).Err?
    ensures !flush.segment.full ==> Recover(cfg, SwappedDisk(s.disk, flush.segment)).Err?
    ensures !PublishRestores(cfg, s.disk, flush.segment, s.history, s.walStart)
  {
    var seg, m := flush.segment, s.disk.manifest.value;
    assert ChainShape(s.disk.files, m);
    if seg.full {
      // The newest delta of the chain has been overwritten by a full segment.
      var files := RenamedDisk(s.disk, seg).files;
      assert files[m.names[|m.names| - 1]].full;
      assert LoadSegments(files, m, |m.names|).Err?;
    } else {
      var next := NextManifest(s.disk.manifest, seg);
      if |m.names| <= MAX_INDEX_SEGMENTS {
        // The new name repeats the newest one.
        assert next.names[|m.names| - 1] == next.names[|m.names|];
      }
      assert !ReadableManifest(next);
    }
  }

  // ----- all runs --------------------------------------------------------

  /** Steps that the code can take, with any number of flushes in flight. */
  ghost predicate Possible(cfg: Config, s: System, run: seq<Step>)
    decreases |run|
  {
    run == [] || (Enabled(cfg, s, run[0]) && Possible(cfg, Do(cfg, s, run[0]), run[1..]))
  }

  /** Every state of the run restores its history, and so does each of its publications at both boundaries. */
  ghost predicate AllRestore(cfg: Config, s: System, run: seq<Step>)
    decreases |run|
  {
    && Restores(cfg, s.disk, s.history, s.walStart)
    && (run != [] ==>
          && Enabled(cfg, s, run[0])
          && (run[0].Rename? ==> PublishRestores(cfg, s.disk, run[0].flush.segment, s.history, s.walStart))
          && AllRestore(cfg, Do(cfg, s, run[0]), run[1..]))
  }

  /**
   Whatever writers, flushers, errors, crashes and reopenings do, and however many flushes are
   in flight, nothing is lost at any boundary if and only if each publication meets
   `SafeToPublish` when it starts.
   */
  lemma {:induction false} RunsRestoreIff(cfg: Config, s: System, run: seq<Step>)
    requires Inv(cfg, s) && Possible(cfg, s, run)
    ensures AllRestore(cfg, s, run) <==> Legal(cfg, s, run)
    decreases |run|
  {
    RecoverRestores(cfg, s.history, s.disk, s.walStart);
    if run != [] {
      if run[0].Rename? { PublishIsSafeIff(cfg, s, run[0].flush); }
      if Careful(s, run[0]) {
        StepKeeps(cfg, s, run[0]);
        RunsRestoreIff(cfg, Do(cfg, s, run[0]), run[1..]);
      }
    }
  }

  lemma SharedRunsRestoreIff(cfg: Config, run: seq<Step>)
    requires Possible(cfg, FRESH, run)
    ensures AllRestore(cfg, FRESH, run) <==> Legal(cfg, FRESH, run)
  {
    FreshIsSound(cfg);
    RunsRestoreIff(cfg, FRESH, run);
  }

  // ----- the unguarded flush ---------------------------------------------

  /**
   `SharedCollection::flush` with nothing written since the last one: the flush
   overwrites the newest segment, lists it twice, and the directory no longer opens.
   */
  lemma IdleFlushDestroys(cfg: Config, s: System)
    requires Inv(cfg, s) && Up(s) && s.phase.Idle?
    requires s.disk.manifest.Some? && s.disk.manifest.value.sequence == s.memory.value.coll.sequence
    requires !Compacts(s.memory.value)
    ensures var flush := SnapshotOf(s.memory.value);
      && Enabled(cfg, Do(cfg, s, Snapshot), Rename(flush))
      && Recover(cfg, SwappedDisk(s.disk, flush.segment)).Err?
  {
    var flush := SnapshotOf(s.memory.value);
    SnapshotKeeps(cfg, s);
    UnsafePublishLoses(cfg, Do(cfg, s, Snapshot), flush);
  }

  lemma Then(cfg: Config, s: System, step: Step, rest: seq<Step>)
    requires Enabled(cfg, s, step) && Careful(s, step) && Legal(cfg, Do(cfg, s, step), rest)
    ensures Legal(cfg, s, [step] + rest)
    ensures Run(cfg, s, [step] + rest) == Run(cfg, Do(cfg, s, step), rest)
  {
    assert ([step] + rest)[1..] == rest;
  }

  lemma {:induction false} RunsCompose(cfg: Config, s: System, first: seq<Step>, second: seq<Step>)
    requires Legal(cfg, s, first) && Legal(cfg, Run(cfg, s, first), second)
    ensures Legal(cfg, s, first + second)
    ensures Run(cfg, s, first + second) == Run(cfg, Run(cfg, s, first), second)
    decreases |first|
  {
    if first == [] {
      assert first + second == second;
    } else {
      RunsCompose(cfg, Do(cfg, s, first[0]), first[1..], second);
      Then(cfg, s, first[0], first[1..] + second);
      assert first + second == [first[0]] + (first[1..] + second);
    }
  }

  /** A flush that nothing interrupts. */
  function FlushRun(flush: Flush): seq<Step> {
    [Snapshot, Rename(flush), Swap, Truncate, Commit, Release]
  }

  function Flushed(s: System): System
    requires Up(s)
  {
    var mem := s.memory.value;
    var flush := SnapshotOf(mem);
    s.(disk := SwappedDisk(s.disk, flush.segment).(wal := []),
       memory := Some(Memory(mem.coll, PushGraph(if flush.segment.full then [] else mem.indexes, flush.segment),
                             Some(mem.coll.points), {})),
       walStart := |s.history|, base := mem.coll.sequence)
  }

  lemma PublishTail(cfg: Config, s: System, flush: Flush, previous: Option<Manifest>)
    requires Up(s) && s.phase == Swapped(flush, previous)
    requires s.memory.value.coll.sequence == flush.segment.sequence
    ensures Legal(cfg, s, [Truncate, Commit, Release])
    ensures var mem := s.memory.value;
      Run(cfg, s, [Truncate, Commit, Release]) ==
        s.(disk := s.disk.(wal := []), phase := Idle, walStart := |s.history|, base := flush.segment.sequence,
           memory := Some(Memory(mem.coll, PushGraph(if flush.segment.full then [] else mem.indexes, flush.segment),
                                 Some(flush.metadata), {})))
  {
    var t := Do(cfg, s, Truncate);
    var c := Do(cfg, t, Commit);
    var r := Do(cfg, c, Release);
    assert Legal(cfg, r, []);
    Then(cfg, c, Release, []);
    Then(cfg, t, Commit, [Release]);
    Then(cfg, s, Truncate, [Commit, Release]);
    assert [Commit] + [Release] == [Commit, Release];
    assert [Truncate] + [Commit, Release] == [Truncate, Commit, Release];
  }

  lemma PublishRun(cfg: Config, s: System, flush: Flush)
    requires Up(s) && s.phase.Idle? && flush in s.flights
    requires s.memory.value.coll.sequence == flush.segment.sequence
    requires !Stale(s.disk.manifest, flush) && SafeToPublish(s.disk.manifest, flush.segment)
    requires ReplacePersisted(s.memory.value.coll, flush.segment.points) == s.memory.value.coll
    ensures Legal(cfg, s, [Rename(flush), Swap, Truncate, Commit, Release])
    ensures var mem := s.memory.value;
      Run(cfg, s, [Rename(flush), Swap, Truncate, Commit, Release]) ==
        s.(disk := SwappedDisk(s.disk, flush.segment).(wal := []), flights := s.flights - multiset{flush},
           walStart := |s.history|, base := flush.segment.sequence,
           memory := Some(Memory(mem.coll, PushGraph(if flush.segment.full then [] else mem.indexes, flush.segment),
                                 Some(flush.metadata), {})))
  {
    var b := Do(cfg, s, Rename(flush));
    var c := Do(cfg, b, Swap);
    assert c.memory == s.memory;
    PublishTail(cfg, c, flush, s.disk.manifest);
    var tail := [Truncate, Commit, Release];
    Then(cfg, b, Swap, tail);
    Then(cfg, s, Rename(flush), [Swap] + tail);
    assert [Rename(flush)] + ([Swap] + tail) == [Rename(flush), Swap, Truncate, Commit, Release];
  }

  lemma FlushRunWorks(cfg: Config, s: System)
    requires Inv(cfg, s) && Up(s) && s.phase.Idle?
    requires SafeToPublish(s.disk.manifest, SnapshotOf(s.memory.value).segment)
    ensures Legal(cfg, s, FlushRun(SnapshotOf(s.memory.value)))
    ensures Run(cfg, s, FlushRun(SnapshotOf(s.memory.value))) == Flushed(s)
  {
    var flush := SnapshotOf(s.memory.value);
    var seg := flush.segment;
    var a := Do(cfg, s, Snapshot);
    assert a.flights - multiset{flush} == s.flights;
    assert LiveAt(s.history, seg.sequence, seg.points);
    ReplaceIsInvisible(s.history, seg.sequence, seg.sequence, seg.points);
    PublishRun(cfg, a, flush);
    var rest := [Rename(flush), Swap, Truncate, Commit, Release];
    Then(cfg, s, Snapshot, rest);
    assert [Snapshot] + rest == FlushRun(flush);
  }

  lemma WriteRunWorks(cfg: Config, s: System, batch: Mutation)
    requires Inv(cfg, s) && Enabled(cfg, s, Write(batch))
    ensures Legal(cfg, s, [Write(batch), Acknowledge])
    ensures var t := Run(cfg, s, [Write(batch), Acknowledge]);
      var mem, m := s.memory.value, Prepare(cfg, batch).value;
      && t.history == s.history + [m] && t.acked == s.acked + 1 && t.phase.Idle?
      && t.disk == Do(cfg, s, Write(batch)).disk && t.disk.manifest == s.disk.manifest && t.disk.files == s.disk.files
      && t.memory == Some(mem.(coll := Apply(mem.coll, m, mem.coll.sequence + 1), dirty := mem.dirty + Touched(m)))
  {
    var w := Do(cfg, s, Write(batch));
    var t := Do(cfg, w, Acknowledge);
    assert Legal(cfg, t, []);
    Then(cfg, w, Acknowledge, []);
    Then(cfg, s, Write(batch), [Acknowledge]);
    assert [Write(batch)] + [Acknowledge] == [Write(batch), Acknowledge];
  }

  /** A write followed by an uninterrupted flush. */
  function RoundRun(batch: Mutation, flush: Flush): seq<Step> {
    [Write(batch), Acknowledge] + FlushRun(flush)
  }

  function Written(cfg: Config, s: System, batch: Mutation): System
    requires Enabled(cfg, s, Write(batch)) && Legal(cfg, s, [Write(batch), Acknowledge])
  {
    Run(cfg, s, [Write(batch), Acknowledge])
  }

  lemma RoundWorks(cfg: Config, s: System, batch: Mutation)
    requires Inv(cfg, s) && Enabled(cfg, s, Write(batch))
    requires Legal(cfg, s, [Write(batch), Acknowledge])
    requires var w := Written(cfg, s, batch);
      Up(w) && w.phase.Idle? && SafeToPublish(w.disk.manifest, SnapshotOf(w.memory.value).segment)
    ensures var w := Written(cfg, s, batch);
      var run := RoundRun(batch, SnapshotOf(w.memory.value));
      Legal(cfg, s, run) && Run(cfg, s, run) == Flushed(w) && Inv(cfg, Flushed(w))
  {
    var write := [Write(batch), Acknowledge];
    RunKeeps(cfg, s, write);
    var w := Run(cfg, s, write);
    var flush := FlushRun(SnapshotOf(w.memory.value));
    FlushRunWorks(cfg, w);
    RunKeeps(cfg, w, flush);
    RunsCompose(cfg, s, write, flush);
  }

  /** One upsert and two unguarded flushes, starting from an empty directory, lose the collection. */
  lemma FlushTwiceDestroys(cfg: Config, batch: seq<UpsertPoint>)
    requires Prepare(cfg, Upsert(batch)).Ok?
    ensures exists run: seq<Step> ::
      && Legal(cfg, FRESH, run)
      && var s := Run(cfg, FRESH, run);
      && |s.history| == s.acked == 1 && Up(s) && s.phase.Idle?
      && Recover(cfg, SwappedDisk(s.disk, SnapshotOf(s.memory.value).segment)).Err?
  {
    FreshIsSound(cfg);
    WriteRunWorks(cfg, FRESH, Upsert(batch));
    var w := Written(cfg, FRESH, Upsert(batch));
    FirstFlushIsNonEmpty(cfg, batch);
    RoundWorks(cfg, FRESH, Upsert(batch));
    var run := RoundRun(Upsert(batch), SnapshotOf(w.memory.value));
    IdleFlushDestroys(cfg, Flushed(w));
    assert Legal(cfg, FRESH, run) && Run(cfg, FRESH, run) == Flushed(w);
  }

  lemma FirstFlushIsNonEmpty(cfg: Config, batch: seq<UpsertPoint>)
    requires Prepare(cfg, Upsert(batch)).Ok?
    ensures Apply(EMPTY, Prepare(cfg, Upsert(batch)).value, 1).points != map[]
  {
    var m := Prepare(cfg, Upsert(batch)).value;
    var id := m.points[0].id;
    assert id in Touched(m);
    ApplyOn(EMPTY, m, 1, id);
    PutAllOn(map[], m.points, 1, id);
  }
}
