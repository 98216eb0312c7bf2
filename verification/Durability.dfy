/**
 The single-node durability engine as a transition system: a framed
 write-ahead log, immutable segment files, a manifest naming a full segment
 followed by deltas, the in-memory collection with its indexes and dirty IDs,
 and flushes that are snapshotted, built off-lock and published step by step.
 A crash may fall between any two durable actions.
 */
module Durability {
  import opened Base
  import opened Collections

  const MAX_INDEX_SEGMENTS: nat := 8

  /** One complete log frame. Torn frames are the business of `Framing`. */
  datatype Frame = Frame(sequence: nat, mutation: Mutation)

  /** A segment file; its graph indexes exactly the IDs of its points. */
  datatype Segment = Segment(sequence: nat, full: bool, points: Points, tombstones: set<Id>)

  /** Segment names are `segment-<20 digits>.fvs`, so the number stands for the name. */
  datatype Manifest = Manifest(sequence: nat, names: seq<nat>)

  datatype Disk = Disk(wal: seq<Frame>, files: map<nat, Segment>, manifest: Option<Manifest>)

  /** A loaded graph with the versions it was built from. */
  datatype IndexSegment = IndexSegment(sequence: nat, points: Points)

  /** `metadata` holds the points the metadata index was built from. */
  datatype Memory = Memory(
    coll: Coll, indexes: seq<IndexSegment>, metadata: Option<Points>, dirty: set<Id>)

  /** A flush between its snapshot and its publication. */
  datatype Flush = Flush(segment: Segment, metadata: Points)

  // ----- reopening -------------------------------------------------------

  predicate ReadableManifest(m: Manifest) {
    && 1 <= |m.names| <= MAX_INDEX_SEGMENTS + 1
    && forall i, j :: 0 <= i < j < |m.names| ==> m.names[i] != m.names[j]
  }

  datatype Loaded = Loaded(coll: Coll, indexes: seq<IndexSegment>)

  function PushGraph(indexes: seq<IndexSegment>, seg: Segment): seq<IndexSegment> {
    if seg.points == map[] then indexes else indexes + [IndexSegment(seg.sequence, seg.points)]
  }

  /** Deltas apply their upserts first and their tombstones second. */
  function Overlay(points: Points, seg: Segment): Points {
    if seg.full then seg.points else (points + seg.points) - seg.tombstones
  }

  /** `load_current_segments` after its first `k` segments. */
  function LoadSegments(files: map<nat, Segment>, m: Manifest, k: nat): (r: Result<Loaded>)
    requires k <= |m.names|
  {
    if k == 0 then Ok(Loaded(EMPTY, []))
    else
      var before := LoadSegments(files, m, k - 1);
      if before.Err? then before
      else if m.names[k - 1] !in files then Err(CorruptStorage)
      else
        var seg := files[m.names[k - 1]];
        var Loaded(coll, indexes) := before.value;
        if k == 1 && !seg.full then Err(CorruptStorage)
        else if k > 1 && (seg.full || seg.sequence <= coll.sequence) then Err(CorruptStorage)
        else if k == |m.names| && seg.sequence != m.sequence then Err(CorruptStorage)
        else if seg.full && exists id :: id in seg.points && seg.points[id].sequence > seg.sequence then
          Err(CorruptStorage)
        else Ok(Loaded(Coll(Overlay(coll.points, seg), seg.sequence), PushGraph(indexes, seg)))
  }

  /** `apply_payload`: skip what a segment already holds, demand consecutive numbers. */
  function ReplayFrame(cfg: Config, coll: Coll, frame: Frame): (r: Result<(Coll, set<Id>)>) {
    if frame.sequence <= coll.sequence then Ok((coll, {}))
    else if frame.sequence != coll.sequence + 1 then Err(CorruptStorage)
    else
      var prepared := Prepare(cfg, frame.mutation);
      if prepared.Err? then Err(prepared.error)
      else Ok((Apply(coll, prepared.value, frame.sequence), Touched(frame.mutation)))
  }

  function ReplayWal(cfg: Config, coll: Coll, wal: seq<Frame>): (r: Result<(Coll, set<Id>)>)
    decreases |wal|
  {
    if wal == [] then Ok((coll, {}))
    else
      var before := ReplayWal(cfg, coll, wal[..|wal| - 1]);
      if before.Err? then before
      else
        var last := ReplayFrame(cfg, before.value.0, wal[|wal| - 1]);
        if last.Err? then last
        else Ok((last.value.0, before.value.1 + last.value.1))
  }

  /** `PersistentCollection::open` on the files of a directory. */
  function Recover(cfg: Config, disk: Disk): (r: Result<Memory>) {
    match disk.manifest
    case None =>
      var replayed := ReplayWal(cfg, EMPTY, disk.wal);
      if replayed.Err? then Err(replayed.error)
      else Ok(Memory(replayed.value.0, [], None, replayed.value.1))
    case Some(m) =>
      if !ReadableManifest(m) then Err(CorruptStorage)
      else
        var loaded := LoadSegments(disk.files, m, |m.names|);
        if loaded.Err? then Err(loaded.error)
        else
          var replayed := ReplayWal(cfg, loaded.value.coll, disk.wal);
          if replayed.Err? then Err(replayed.error)
          else Ok(Memory(replayed.value.0, loaded.value.indexes, Some(loaded.value.coll.points), replayed.value.1))
  }

  // ----- flushing --------------------------------------------------------

  predicate Compacts(mem: Memory) {
    mem.indexes == [] || |mem.indexes| >= MAX_INDEX_SEGMENTS
  }

  /** `flush_snapshot` followed by the off-lock `build_flush`. */
  function SnapshotOf(mem: Memory): (flush: Flush) {
    var live := mem.coll.points;
    var seg :=
      if Compacts(mem) then Segment(mem.coll.sequence, true, live, {})
      else Segment(mem.coll.sequence, false,
                   map id | id in live && id in mem.dirty :: live[id],
                   set id | id in mem.dirty && id !in live);
    Flush(seg, live)
  }

  /** The early return of `publish_flush` for a flush older than the manifest. */
  predicate Stale(manifest: Option<Manifest>, flush: Flush) {
    manifest.Some? && manifest.value.sequence > flush.segment.sequence
  }

  function NextManifest(previous: Option<Manifest>, seg: Segment): Manifest {
    var names := if seg.full || previous.None? then [] else previous.value.names;
    Manifest(seg.sequence, names + [seg.sequence])
  }

  /**
   The condition, checkable before `publish_flush` writes anything, under which
   publishing is crash safe. The code itself checks only `Stale`.
   */
  predicate SafeToPublish(manifest: Option<Manifest>, seg: Segment) {
    || manifest.None?
    || manifest.value.sequence > seg.sequence
    || (seg.full && (manifest.value.sequence < seg.sequence || |manifest.value.names| == 1))
    || (!seg.full && manifest.value.sequence < seg.sequence && |manifest.value.names| <= MAX_INDEX_SEGMENTS)
  }

  // ----- the system and its steps ----------------------------------------

  /** What the holder of the write lock is in the middle of. */
  datatype Phase =
    | Idle
    | Appended
    | Renamed(flush: Flush, previous: Option<Manifest>)
    | Swapped(flush: Flush, previous: Option<Manifest>)
    | Truncated(flush: Flush, previous: Option<Manifest>)
    | Retiring(flush: Flush, previous: Option<Manifest>)

  /**
   `history` lists every batch whose frame is completely on disk or in a segment, as
   the process applied it; the first `acked` of them were acknowledged. `walStart` is the
   sequence at the last log truncation and `base` the sequence the in-memory
   indexes were built for; both only support the proofs.
   */
  datatype System = System(
    disk: Disk, memory: Option<Memory>, flights: multiset<Flush>, phase: Phase,
    history: seq<Mutation>, acked: nat, walStart: nat, base: nat)

  const FRESH := System(Disk([], map[], None), Some(Memory(EMPTY, [], None, {})), multiset{}, Idle, [], 0, 0, 0)

  datatype Step =
    | Write(batch: Mutation)   // prepare the batch and append its frame
    | Acknowledge              // apply it in memory and answer the caller
    | Rollback                 // the append failed: cut the frame off again
    | Snapshot                 // flush_snapshot under the read lock, then build_flush
    | Drop(flush: Flush)       // a failed build, or a stale publish
    | Rename(flush: Flush)     // publish_flush moves the segment into place
    | Swap                     // the new manifest replaces the old one
    | Truncate                 // the log is emptied
    | Abort                    // an I/O error ends publish_flush early
    | Commit                   // the in-memory half of publish_flush
    | Retire(name: nat)        // one file of the replaced chain is unlinked
    | Release                  // publish_flush returns
    | Crash
    | Reopen

  predicate Up(s: System) { s.memory.Some? }

  function ManifestSequence(manifest: Option<Manifest>): nat {
    if manifest.None? then 0 else manifest.value.sequence
  }

  /** The history of a reopened process: the batches that only the log holds are prepared once more. */
  function Replayed(cfg: Config, h: seq<Mutation>, disk: Disk, start: nat): (g: seq<Mutation>)
    ensures |g| == |h|
  {
    seq(|h|, i requires 0 <= i < |h| =>
      if ManifestSequence(disk.manifest) <= i && start <= i < start + |disk.wal|
      then Again(cfg, disk.wal[i - start].mutation) else h[i])
  }

  predicate Enabled(cfg: Config, s: System, step: Step) {
    match step
    case Write(batch) =>
      Up(s) && s.phase.Idle? && s.memory.value.coll.sequence < U64_MAX && Prepare(cfg, batch).Ok?
    case Acknowledge => Up(s) && s.phase.Appended? && s.history != []
    case Rollback => Up(s) && s.phase.Appended? && s.history != [] && s.disk.wal != []
    case Snapshot => Up(s) && s.phase.Idle?
    case Drop(flush) => flush in s.flights
    case Rename(flush) =>
      Up(s) && s.phase.Idle? && flush in s.flights && !Stale(s.disk.manifest, flush)
    case Swap => Up(s) && s.phase.Renamed?
    case Truncate =>
      Up(s) && s.phase.Swapped? && s.memory.value.coll.sequence == s.phase.flush.segment.sequence
    case Abort => Up(s) && (s.phase.Renamed? || s.phase.Swapped? || s.phase.Truncated?)
    case Commit =>
      && Up(s)
      && (s.phase.Truncated?
          || (s.phase.Swapped? && s.memory.value.coll.sequence != s.phase.flush.segment.sequence))
    case Retire(name) =>
      && Up(s) && s.phase.Retiring? && s.phase.flush.segment.full && s.phase.previous.Some?
      && name in s.phase.previous.value.names && name != s.phase.flush.segment.sequence
    case Release => Up(s) && s.phase.Retiring?
    case Crash => true
    case Reopen => !Up(s)
  }

  function Do(cfg: Config, s: System, step: Step): System
    requires Enabled(cfg, s, step)
  {
    match step
    case Write(batch) =>
      var m := Prepare(cfg, batch).value;
      var frame := Frame(s.memory.value.coll.sequence + 1, m);
      s.(disk := s.disk.(wal := s.disk.wal + [frame]), history := s.history + [m], phase := Appended)
    case Acknowledge =>
      var mem := s.memory.value;
      var m := s.history[|s.history| - 1];
      s.(memory := Some(mem.(coll := Apply(mem.coll, m, mem.coll.sequence + 1), dirty := mem.dirty + Touched(m))),
         acked := s.acked + 1, phase := Idle)
    case Rollback =>
      s.(disk := s.disk.(wal := s.disk.wal[..|s.disk.wal| - 1]),
         history := s.history[..|s.history| - 1], phase := Idle)
    case Snapshot =>
      s.(flights := s.flights + multiset{SnapshotOf(s.memory.value)})
    case Drop(flush) =>
      s.(flights := s.flights - multiset{flush})
    case Rename(flush) =>
      s.(disk := s.disk.(files := s.disk.files[flush.segment.sequence := flush.segment]),
         flights := s.flights - multiset{flush}, phase := Renamed(flush, s.disk.manifest))
    case Swap =>
      var Renamed(flush, previous) := s.phase;
      var mem := s.memory.value;
      s.(disk := s.disk.(manifest := Some(NextManifest(previous, flush.segment))),
         memory := Some(mem.(coll := ReplacePersisted(mem.coll, flush.segment.points))),
         phase := Swapped(flush, previous))
    case Truncate =>
      s.(disk := s.disk.(wal := []), phase := Truncated(s.phase.flush, s.phase.previous), walStart := |s.history|)
    case Abort => s.(phase := Idle)
    case Commit =>
      var mem := s.memory.value;
      var seg := s.phase.flush.segment;
      var kept := if seg.full then [] else mem.indexes;
      s.(memory := Some(Memory(mem.coll, PushGraph(kept, seg), Some(s.phase.flush.metadata),
                               if s.phase.Truncated? then {} else mem.dirty)),
         phase := Retiring(s.phase.flush, s.phase.previous), base := seg.sequence)
    case Retire(name) => s.(disk := s.disk.(files := s.disk.files - {name}))
    case Release => s.(phase := Idle)
    case Crash => s.(memory := None, flights := multiset{}, phase := Idle)
    case Reopen =>
      match Recover(cfg, s.disk)
      case Err(_) => s
      case Ok(mem) =>
        s.(memory := Some(mem), history := Replayed(cfg, s.history, s.disk, s.walStart), acked := |s.history|,
           base := if s.disk.manifest.None? then 0 else s.disk.manifest.value.sequence)
  }

  /** Every publication of the run meets `SafeToPublish`. */
  predicate Careful(s: System, step: Step) {
    step.Rename? ==> SafeToPublish(s.disk.manifest, step.flush.segment)
  }

  ghost predicate Legal(cfg: Config, s: System, run: seq<Step>)
    decreases |run|
  {
    run == [] || (Enabled(cfg, s, run[0]) && Careful(s, run[0]) && Legal(cfg, Do(cfg, s, run[0]), run[1..]))
  }

  function Run(cfg: Config, s: System, run: seq<Step>): System
    requires Legal(cfg, s, run)
    decreases |run|
  {
    if run == [] then s else Run(cfg, Do(cfg, s, run[0]), run[1..])
  }
}
