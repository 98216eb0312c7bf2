/**
 `PersistentCollection::flush` takes `&mut self` and returns early when nothing
 is dirty. Over every run of such an owner, I/O errors included, nothing is ever
 lost if and only if each publication starts in a `PublishSafe` state. While no
 publication fails after its manifest swap, only the length of the chain can
 violate that; a retry after such a failure, or a long row of delete-only
 flushes, does violate it.
 */
module FlushGuard {
  import opened Base
  import opened Collections
  import opened Durability
  import opened CrashSafety
  import opened PublishSafety

  predicate GuardPasses(mem: Memory) {
    !(mem.dirty == {} && mem.indexes != [])
  }

  /**
   A single owner: no write and no second snapshot while a flush is pending, and
   the guard before each snapshot. Any publication may end in an I/O error.
   */
  predicate Owner(s: System, step: Step) {
    && (step.Write? ==> s.flights == multiset{})
    && (step.Snapshot? ==> Up(s) && s.flights == multiset{} && GuardPasses(s.memory.value))
  }

  ghost predicate OwnerRun(cfg: Config, s: System, run: seq<Step>)
    decreases |run|
  {
    run == [] || (Enabled(cfg, s, run[0]) && Owner(s, run[0]) && OwnerRun(cfg, Do(cfg, s, run[0]), run[1..]))
  }

  // ----- when an owner's runs lose nothing -------------------------------

  /**
   Whether the flush an owner is about to publish can be published: there is no manifest, or
   it is older and the chain has room or will be replaced, or it names one segment and will
   be replaced.
   */
  predicate PublishSafe(s: System)
    requires Up(s)
  {
    var mem, m := s.memory.value, s.disk.manifest;
    || m.None?
    || (m.value.sequence < mem.coll.sequence && (Compacts(mem) || |m.value.names| <= MAX_INDEX_SEGMENTS))
    || (Compacts(mem) && |m.value.names| == 1)
  }

  /** Every publication of the run starts in a safe state. */
  ghost predicate AllSafe(cfg: Config, s: System, run: seq<Step>)
    requires OwnerRun(cfg, s, run)
    decreases |run|
  {
    run == [] || ((run[0].Rename? ==> PublishSafe(s)) && AllSafe(cfg, Do(cfg, s, run[0]), run[1..]))
  }

  /** What an owner has in flight, or is publishing, is the snapshot of its present memory. */
  ghost predicate PendingInv(s: System) {
    Up(s) ==>
      var snapshot := SnapshotOf(s.memory.value);
      && (s.flights == multiset{} || (s.phase.Idle? && s.flights == multiset{snapshot}))
      && (s.phase.Renamed? || s.phase.Swapped? || s.phase.Truncated? ==> s.phase.flush == snapshot)
  }

  lemma PendingStep(cfg: Config, s: System, step: Step)
    requires Inv(cfg, s) && PendingInv(s) && Enabled(cfg, s, step) && Owner(s, step)
    ensures PendingInv(Do(cfg, s, step))
  {
    match step
    case Swap => SwapKeepsPending(cfg, s);
    case Rename(flush) => assert s.flights - multiset{flush} == multiset{};
    case _ =>
  }

  lemma SwapKeepsPending(cfg: Config, s: System)
    requires Inv(cfg, s) && PendingInv(s) && Enabled(cfg, s, Swap)
    ensures Do(cfg, s, Swap).memory == s.memory && PendingInv(Do(cfg, s, Swap))
  {
    SwapKeeps(cfg, s);
  }

  lemma PublishSafeIsExact(cfg: Config, s: System, flush: Flush)
    requires Inv(cfg, s) && PendingInv(s) && Enabled(cfg, s, Rename(flush))
    ensures PublishSafe(s) <==> SafeToPublish(s.disk.manifest, flush.segment)
  {
    assert flush == SnapshotOf(s.memory.value);
  }

  lemma {:induction false} OwnerIsPossible(cfg: Config, s: System, run: seq<Step>)
    requires OwnerRun(cfg, s, run)
    ensures Possible(cfg, s, run)
    decreases |run|
  {
    if run != [] { OwnerIsPossible(cfg, Do(cfg, s, run[0]), run[1..]); }
  }

  lemma {:induction false} OwnerSafeIsLegal(cfg: Config, s: System, run: seq<Step>)
    requires Inv(cfg, s) && PendingInv(s) && OwnerRun(cfg, s, run)
    ensures Legal(cfg, s, run) <==> AllSafe(cfg, s, run)
    decreases |run|
  {
    if run != [] {
      if run[0].Rename? { PublishSafeIsExact(cfg, s, run[0].flush); }
      if Careful(s, run[0]) {
        PendingStep(cfg, s, run[0]);
        StepKeeps(cfg, s, run[0]);
        OwnerSafeIsLegal(cfg, Do(cfg, s, run[0]), run[1..]);
      }
    }
  }

  /**
   An owner's run, with crashes, reopenings and I/O errors at any point, loses nothing at
   any boundary if and only if each of its publications starts in a safe state.
   */
  lemma OwnerRunsRestoreIff(cfg: Config, s: System, run: seq<Step>)
    requires Inv(cfg, s) && PendingInv(s) && OwnerRun(cfg, s, run)
    ensures AllRestore(cfg, s, run) <==> AllSafe(cfg, s, run)
  {
    OwnerIsPossible(cfg, s, run);
    OwnerSafeIsLegal(cfg, s, run);
    RunsRestoreIff(cfg, s, run);
  }

  lemma GuardedRunsRestoreIff(cfg: Config, run: seq<Step>)
    requires OwnerRun(cfg, FRESH, run)
    ensures AllRestore(cfg, FRESH, run) <==> AllSafe(cfg, FRESH, run)
  {
    FreshIsSound(cfg);
    OwnerRunsRestoreIff(cfg, FRESH, run);
  }

  // ----- a retry after an I/O error --------------------------------------

  /** A sound, idle collection whose guard lets a flush pass that leaves the directory unopenable. */
  ghost predicate FlushDestroys(cfg: Config, s: System) {
    && Inv(cfg, s) && Up(s) && s.phase.Idle? && GuardPasses(s.memory.value)
    && Recover(cfg, SwappedDisk(s.disk, SnapshotOf(s.memory.value).segment)).Err?
  }

  /**
   A guarded delta flush fails between its manifest swap and the clearing of the dirty set,
   with the log emptied or not. The owner is intact and the guard lets the retry pass, but
   the retry lists the segment twice and the directory no longer opens.
   */
  lemma RetryAfterErrorDestroys(cfg: Config, s: System, emptied: bool)
    requires Inv(cfg, s) && Up(s) && s.phase.Idle?
    requires s.memory.value.dirty != {} && !Compacts(s.memory.value)
    requires s.disk.manifest.Some? && PublishSafe(s)
    ensures var run := FailedRun(SnapshotOf(s.memory.value), emptied);
      && Legal(cfg, s, run)
      && var t := Run(cfg, s, run);
      FlushDestroys(cfg, t) && !PublishSafe(t) && t.history == s.history && t.memory == s.memory
  {
    var flush := SnapshotOf(s.memory.value);
    var run := FailedRun(flush, emptied);
    FailedRunWorks(cfg, s, emptied);
    RunKeeps(cfg, s, run);
    var t := Run(cfg, s, run);
    SnapshotKeeps(cfg, t);
    UnsafePublishLoses(cfg, Do(cfg, t, Snapshot), flush);
  }

  function FailedRun(flush: Flush, emptied: bool): seq<Step> {
    [Snapshot, Rename(flush), Swap] + (if emptied then [Truncate, Abort] else [Abort])
  }

  /** The first three steps of a publication change the disk and nothing else. */
  lemma PublishStart(cfg: Config, s: System)
    requires Inv(cfg, s) && Up(s) && s.phase.Idle?
    ensures var flush := SnapshotOf(s.memory.value);
      && Enabled(cfg, Do(cfg, s, Snapshot), Rename(flush))
      && Do(cfg, Do(cfg, Do(cfg, s, Snapshot), Rename(flush)), Swap)
         == s.(disk := SwappedDisk(s.disk, flush.segment), phase := Swapped(flush, s.disk.manifest))
  {
    var flush := SnapshotOf(s.memory.value);
    var seg, a := flush.segment, Do(cfg, s, Snapshot);
    assert a.flights - multiset{flush} == s.flights;
    assert LiveAt(s.history, seg.sequence, seg.points);
    ReplaceIsInvisible(s.history, seg.sequence, seg.sequence, seg.points);
  }

  lemma FailedRunWorks(cfg: Config, s: System, emptied: bool)
    requires Inv(cfg, s) && Up(s) && s.phase.Idle?
    requires SafeToPublish(s.disk.manifest, SnapshotOf(s.memory.value).segment)
    ensures var flush := SnapshotOf(s.memory.value);
      && Legal(cfg, s, FailedRun(flush, emptied))
      && var t, swapped := Run(cfg, s, FailedRun(flush, emptied)), SwappedDisk(s.disk, flush.segment);
      && t.history == s.history && t.memory == s.memory && t.phase.Idle? && t.flights == s.flights
      && t.disk == if emptied then swapped.(wal := []) else swapped
  {
    PublishStart(cfg, s);
    FailedTail(cfg, s, SnapshotOf(s.memory.value), emptied);
  }

  lemma FailedTail(cfg: Config, s: System, flush: Flush, emptied: bool)
    requires Up(s) && s.phase.Idle? && flush == SnapshotOf(s.memory.value)
    requires Enabled(cfg, Do(cfg, s, Snapshot), Rename(flush)) && SafeToPublish(s.disk.manifest, flush.segment)
    requires Do(cfg, Do(cfg, Do(cfg, s, Snapshot), Rename(flush)), Swap)
      == s.(disk := SwappedDisk(s.disk, flush.segment), phase := Swapped(flush, s.disk.manifest))
    ensures Legal(cfg, s, FailedRun(flush, emptied))
    ensures var t, swapped := Run(cfg, s, FailedRun(flush, emptied)), SwappedDisk(s.disk, flush.segment);
      && t.history == s.history && t.memory == s.memory && t.phase.Idle? && t.flights == s.flights
      && t.disk == if emptied then swapped.(wal := []) else swapped
  {
    var a := Do(cfg, s, Snapshot);
    var b := Do(cfg, a, Rename(flush));
    var tail := if emptied then [Truncate, Abort] else [Abort];
    AbortTail(cfg, Do(cfg, b, Swap), emptied);
    Then(cfg, b, Swap, tail);
    Then(cfg, a, Rename(flush), [Swap] + tail);
    Then(cfg, s, Snapshot, [Rename(flush)] + ([Swap] + tail));
    assert [Snapshot] + ([Rename(flush)] + ([Swap] + tail)) == FailedRun(flush, emptied);
  }

  lemma AbortTail(cfg: Config, s: System, emptied: bool)
    requires Up(s) && s.phase.Swapped? && s.memory.value.coll.sequence == s.phase.flush.segment.sequence
    ensures var tail := if emptied then [Truncate, Abort] else [Abort];
      && Legal(cfg, s, tail)
      && Run(cfg, s, tail) == if emptied then s.(disk := s.disk.(wal := []), phase := Idle, walStart := |s.history|)
                              else s.(phase := Idle)
  {
    var t := if emptied then Do(cfg, s, Truncate) else s;
    var r := Do(cfg, t, Abort);
    assert Legal(cfg, r, []);
    Then(cfg, t, Abort, []);
    assert [Abort] + [] == [Abort];
    if emptied {
      Then(cfg, s, Truncate, [Abort]);
      assert [Truncate] + [Abort] == [Truncate, Abort];
    }
  }

  // ----- runs without such an error --------------------------------------

  /** No error after a manifest swap, and room in the manifest for each delta. */
  predicate Steady(s: System, step: Step) {
    && (step.Abort? ==> s.phase.Renamed?)
    && (step.Rename? && !step.flush.segment.full && s.disk.manifest.Some? ==>
          |s.disk.manifest.value.names| <= MAX_INDEX_SEGMENTS)
  }

  ghost predicate SteadyRun(cfg: Config, s: System, run: seq<Step>)
    requires OwnerRun(cfg, s, run)
    decreases |run|
  {
    run == [] || (Steady(s, run[0]) && SteadyRun(cfg, Do(cfg, s, run[0]), run[1..]))
  }

  predicate FirstSegmentEmpty(disk: Disk) {
    && disk.manifest.Some? && disk.manifest.value.names != []
    && disk.manifest.value.names[0] in disk.files
    && disk.files[disk.manifest.value.names[0]].points == map[]
  }

  /** Deltas are only ever stacked on a full segment that holds points. */
  ghost predicate StackInv(disk: Disk) {
    disk.manifest.Some? && |disk.manifest.value.names| >= 2 ==> !FirstSegmentEmpty(disk)
  }

  /** Outside the second half of a publication, dirty IDs mean changes the manifest does not have. */
  ghost predicate Settled(s: System)
    requires Up(s)
  {
    var mem := s.memory.value;
    && (mem.dirty != {} ==> ManifestSequence(s.disk.manifest) < mem.coll.sequence)
    && (s.disk.manifest.Some? ==> (mem.indexes == [] <==> FirstSegmentEmpty(s.disk)))
  }

  ghost predicate OwnerInv(s: System) {
    && PendingInv(s) && StackInv(s.disk)
    && (Up(s) && !s.phase.Swapped? && !s.phase.Truncated? ==> Settled(s))
    && (Up(s) && (s.flights != multiset{} || s.phase.Renamed?) ==> GuardPasses(s.memory.value))
  }

  lemma {:induction false} FirstGraphLoads(files: map<nat, Segment>, m: Manifest, k: nat)
    requires 1 <= k <= |m.names| && LoadSegments(files, m, k).Ok?
    ensures m.names[0] in files
    ensures files[m.names[0]].points != map[] ==> LoadSegments(files, m, k).value.indexes != []
    ensures k == 1 && files[m.names[0]].points == map[] ==> LoadSegments(files, m, k).value.indexes == []
  {
    if k > 1 { FirstGraphLoads(files, m, k - 1); }
  }

  /** The pending flush of a steady owner is strictly newer, or replaces a chain of one. */
  lemma SteadyPublishesSafely(cfg: Config, s: System, flush: Flush)
    requires Inv(cfg, s) && OwnerInv(s) && Enabled(cfg, s, Rename(flush)) && Steady(s, Rename(flush))
    ensures PublishSafe(s)
  {
    var mem := s.memory.value;
    assert flush == SnapshotOf(mem);
  }

  /** Replacing a chain of one at the same sequence leaves its only segment as empty as it was. */
  lemma RenameKeepsFirst(cfg: Config, s: System, flush: Flush)
    requires Inv(cfg, s) && OwnerInv(s) && Enabled(cfg, s, Rename(flush)) && PublishSafe(s)
    ensures FirstSegmentEmpty(Do(cfg, s, Rename(flush)).disk) <==> FirstSegmentEmpty(s.disk)
  {
    var seg := flush.segment;
    assert FlushInv(s.history, s.disk.manifest, s.memory.value, flush);
    if s.disk.manifest.Some? {
      var m := s.disk.manifest.value;
      if m.sequence < seg.sequence {
        NewerNameIsFresh(s.disk.files, m, seg.sequence);
      } else {
        assert m.names == [seg.sequence];
        SingleSegment(s.history, s.disk.files, m);
      }
    }
  }

  lemma SingleSegment(h: seq<Mutation>, files: map<nat, Segment>, m: Manifest)
    requires ChainInv(h, files, m) && |m.names| == 1
    ensures files[m.names[0]].points == At(h, m.sequence).points
  {
    assert ChainPoints(files, m.names, 1) == Overlay(ChainPoints(files, m.names, 0), files[m.names[0]]);
  }

  lemma OwnerRename(cfg: Config, s: System, flush: Flush)
    requires Inv(cfg, s) && OwnerInv(s) && Enabled(cfg, s, Rename(flush)) && PublishSafe(s)
    ensures OwnerInv(Do(cfg, s, Rename(flush)))
  {
    RenameKeepsFirst(cfg, s, flush);
    assert s.flights - multiset{flush} == multiset{};
  }

  lemma OwnerSwap(cfg: Config, s: System)
    requires Inv(cfg, s) && OwnerInv(s) && Enabled(cfg, s, Swap)
    ensures OwnerInv(Do(cfg, s, Swap))
  {
    SwapKeepsPending(cfg, s);
  }

  lemma OwnerCommit(cfg: Config, s: System)
    requires Inv(cfg, s) && OwnerInv(s) && Enabled(cfg, s, Commit)
    ensures OwnerInv(Do(cfg, s, Commit))
  {
    var seg := s.phase.flush.segment;
    if seg.full { SingleSegment(s.history, s.disk.files, s.disk.manifest.value); }
  }

  lemma OwnerReopen(cfg: Config, s: System)
    requires Inv(cfg, s) && OwnerInv(s) && Enabled(cfg, s, Reopen)
    ensures OwnerInv(Do(cfg, s, Reopen))
  {
    RecoverRestores(cfg, s.history, s.disk, s.walStart);
    if s.disk.manifest.Some? {
      var m := s.disk.manifest.value;
      FirstGraphLoads(s.disk.files, m, |m.names|);
    }
  }

  lemma OwnerRetire(cfg: Config, s: System, name: nat)
    requires Inv(cfg, s) && OwnerInv(s) && Enabled(cfg, s, Retire(name))
    ensures OwnerInv(Do(cfg, s, Retire(name)))
  {
  }

  lemma OwnerAcknowledge(cfg: Config, s: System)
    requires Inv(cfg, s) && OwnerInv(s) && Enabled(cfg, s, Acknowledge)
    ensures OwnerInv(Do(cfg, s, Acknowledge))
  {
  }

  /** The steps that touch neither the manifest, nor its files, nor the collection. */
  lemma OwnerQuietStep(cfg: Config, s: System, step: Step)
    requires OwnerInv(s) && Enabled(cfg, s, step) && Owner(s, step)
    requires step.Write? || step.Rollback? || step.Snapshot? || step.Truncate? || step.Release?
    ensures OwnerInv(Do(cfg, s, step))
  {
  }

  lemma OwnerEnd(cfg: Config, s: System, step: Step)
    requires OwnerInv(s) && Enabled(cfg, s, step) && Steady(s, step)
    requires step.Drop? || step.Abort? || step.Crash?
    requires !Up(s) ==> s.flights == multiset{}
    ensures OwnerInv(Do(cfg, s, step))
  {
    if step.Drop? { assert s.flights - multiset{step.flush} == multiset{}; }
  }

  lemma OwnerStep(cfg: Config, s: System, step: Step)
    requires Inv(cfg, s) && OwnerInv(s) && Enabled(cfg, s, step) && Owner(s, step) && Steady(s, step)
    requires step.Rename? ==> PublishSafe(s)
    ensures OwnerInv(Do(cfg, s, step))
  {
    match step
    case Rename(flush) => OwnerRename(cfg, s, flush);
    case Swap => OwnerSwap(cfg, s);
    case Commit => OwnerCommit(cfg, s);
    case Reopen => OwnerReopen(cfg, s);
    case Retire(name) => OwnerRetire(cfg, s, name);
    case Acknowledge => OwnerAcknowledge(cfg, s);
    case Drop(_) => OwnerEnd(cfg, s, step);
    case Abort => OwnerEnd(cfg, s, step);
    case Crash => OwnerEnd(cfg, s, step);
    case _ => OwnerQuietStep(cfg, s, step);
  }

  /** While the owner is steady, every publication starts in a safe state. */
  lemma {:induction false} SteadyRunIsSafe(cfg: Config, s: System, run: seq<Step>)
    requires Inv(cfg, s) && OwnerInv(s) && OwnerRun(cfg, s, run) && SteadyRun(cfg, s, run)
    ensures AllSafe(cfg, s, run)
    decreases |run|
  {
    if run != [] {
      var step := run[0];
      if step.Rename? {
        SteadyPublishesSafely(cfg, s, step.flush);
        PublishSafeIsExact(cfg, s, step.flush);
      }
      OwnerStep(cfg, s, step);
      StepKeeps(cfg, s, step);
      SteadyRunIsSafe(cfg, Do(cfg, s, step), run[1..]);
    }
  }

  /** Without an error after a manifest swap, and with room in the manifest, an owner loses nothing. */
  lemma SteadyRunsRestore(cfg: Config, run: seq<Step>)
    requires OwnerRun(cfg, FRESH, run) && SteadyRun(cfg, FRESH, run)
    ensures AllRestore(cfg, FRESH, run)
  {
    FreshIsSound(cfg);
    SteadyRunIsSafe(cfg, FRESH, run);
    GuardedRunsRestoreIff(cfg, run);
  }

  // ----- delete-only flushes ---------------------------------------------

  /** A quiet collection whose next flush is a delta. */
  ghost predicate Quiet(cfg: Config, s: System, id: Id) {
    && Inv(cfg, s) && Up(s) && s.phase.Idle? && s.disk.manifest.Some?
    && s.memory.value.dirty == {}
    && !Compacts(s.memory.value)
    && id != "" && id !in s.memory.value.coll.points
  }

  function ChainLength(s: System): nat {
    if s.disk.manifest.None? then 0 else |s.disk.manifest.value.names|
  }

  /** After deleting a missing ID the guard passes and the flush is a delta without a graph. */
  lemma DeleteMissing(cfg: Config, s: System, id: Id)
    requires Quiet(cfg, s, id) && s.memory.value.coll.sequence < U64_MAX
    ensures Enabled(cfg, s, Write(Delete([id]))) && Legal(cfg, s, [Write(Delete([id])), Acknowledge])
    ensures var w := Written(cfg, s, Delete([id]));
      var mem := s.memory.value;
      && Inv(cfg, w) && Up(w) && w.phase.Idle? && w.disk.manifest == s.disk.manifest
      && w.memory.value.coll == Coll(mem.coll.points, mem.coll.sequence + 1)
      && w.memory.value.indexes == mem.indexes && GuardPasses(w.memory.value)
      && SnapshotOf(w.memory.value).segment == Segment(mem.coll.sequence + 1, false, map[], {id})
      && ManifestSequence(w.disk.manifest) < mem.coll.sequence + 1
  {
    var batch := Delete([id]);
    assert Prepare(cfg, batch) == Ok(batch);
    WriteRunWorks(cfg, s, batch);
    RunKeeps(cfg, s, [Write(batch), Acknowledge]);
    TombstoneSegment(s.memory.value, id);
  }

  lemma TombstoneSegment(mem: Memory, id: Id)
    requires mem.dirty == {} && !Compacts(mem) && id !in mem.coll.points
    ensures Apply(mem.coll, Delete([id]), mem.coll.sequence + 1) == Coll(mem.coll.points, mem.coll.sequence + 1)
    ensures Touched(Delete([id])) == {id}
    ensures SnapshotOf(mem.(coll := Coll(mem.coll.points, mem.coll.sequence + 1), dirty := {} + {id})).segment
      == Segment(mem.coll.sequence + 1, false, map[], {id})
  {
    assert Touched(Delete([id])) == {id};
    assert mem.coll.points - {id} == mem.coll.points;
    var seg := SnapshotOf(mem.(coll := Coll(mem.coll.points, mem.coll.sequence + 1), dirty := {} + {id})).segment;
    assert seg.points == map[];
    assert seg.tombstones == {id};
  }

  lemma DeleteRound(cfg: Config, s: System, id: Id) returns (run: seq<Step>)
    requires Quiet(cfg, s, id) && s.memory.value.coll.sequence < U64_MAX
    requires ChainLength(s) <= MAX_INDEX_SEGMENTS
    ensures Legal(cfg, s, run)
    ensures var t := Run(cfg, s, run);
      && Quiet(cfg, t, id) && ChainLength(t) == ChainLength(s) + 1
      && t.memory.value.coll.sequence == s.memory.value.coll.sequence + 1
  {
    DeleteMissing(cfg, s, id);
    var w := Written(cfg, s, Delete([id]));
    RoundWorks(cfg, s, Delete([id]));
    run := RoundRun(Delete([id]), SnapshotOf(w.memory.value));
  }

  lemma {:induction false} DeleteRounds(cfg: Config, s: System, id: Id, k: nat) returns (run: seq<Step>)
    requires Quiet(cfg, s, id) && s.memory.value.coll.sequence + k <= U64_MAX
    requires ChainLength(s) + k <= MAX_INDEX_SEGMENTS + 1
    ensures Legal(cfg, s, run)
    ensures var t := Run(cfg, s, run);
      && Quiet(cfg, t, id) && ChainLength(t) == ChainLength(s) + k
      && t.memory.value.coll.sequence == s.memory.value.coll.sequence + k
    decreases k
  {
    if k == 0 {
      run := [];
    } else {
      var first := DeleteRound(cfg, s, id);
      var rest := DeleteRounds(cfg, Run(cfg, s, first), id, k - 1);
      RunsCompose(cfg, s, first, rest);
      run := first + rest;
    }
  }

  /**
   Guarded flushes that only delete never trigger compaction. From any quiet
   collection they fill the manifest, and the next one makes it unreadable.
   */
  lemma DeletesOutgrowTheManifest(cfg: Config, s: System, id: Id)
    requires Quiet(cfg, s, id)
    requires s.memory.value.coll.sequence + MAX_INDEX_SEGMENTS + 1 < U64_MAX
    ensures exists run: seq<Step> ::
      Legal(cfg, s, run) && FlushDestroys(cfg, Run(cfg, s, run))
  {
    var fill := DeleteRounds(cfg, s, id, MAX_INDEX_SEGMENTS + 1 - ChainLength(s));
    LastDelete(cfg, Run(cfg, s, fill), id);
    DestroysAfter(cfg, s, fill, [Write(Delete([id])), Acknowledge]);
  }

  lemma DestroysAfter(cfg: Config, s: System, first: seq<Step>, second: seq<Step>)
    requires Legal(cfg, s, first) && Legal(cfg, Run(cfg, s, first), second)
    requires FlushDestroys(cfg, Run(cfg, Run(cfg, s, first), second))
    ensures exists run: seq<Step> :: Legal(cfg, s, run) && FlushDestroys(cfg, Run(cfg, s, run))
  {
    RunsCompose(cfg, s, first, second);
    assert Legal(cfg, s, first + second);
  }

  lemma LastDelete(cfg: Config, s: System, id: Id)
    requires Quiet(cfg, s, id) && s.memory.value.coll.sequence < U64_MAX
    requires ChainLength(s) == MAX_INDEX_SEGMENTS + 1
    ensures Legal(cfg, s, [Write(Delete([id])), Acknowledge])
    ensures FlushDestroys(cfg, Run(cfg, s, [Write(Delete([id])), Acknowledge]))
  {
    DeleteMissing(cfg, s, id);
    var t := Run(cfg, s, [Write(Delete([id])), Acknowledge]);
    SnapshotKeeps(cfg, t);
    UnsafePublishLoses(cfg, Do(cfg, t, Snapshot), SnapshotOf(t.memory.value));
  }
}
