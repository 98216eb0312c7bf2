/**
 `PersistentCollection`: the methods that move the durability engine, each
 proved to perform exactly the steps of the transition system, and the filtered
 search, proved exact in every reachable state.
 */
module PersistentCollections {
  import opened Base
  import opened Filters
  import opened MetadataIndexes
  import opened Collections
  import opened CollectionStore
  import opened Ranking
  import opened TopK
  import opened FilteredSearch
  import opened Durability
  import opened CrashSafety
  import opened Reopening

  // ----- opening ---------------------------------------------------------

  lemma {:induction false} LoadErrorStays(files: map<nat, Segment>, m: Manifest, k: nat, n: nat)
    requires k <= n <= |m.names| && LoadSegments(files, m, k).Err?
    ensures LoadSegments(files, m, n) == LoadSegments(files, m, k)
    decreases n
  {
    if k < n { LoadErrorStays(files, m, k, n - 1); }
  }

  /** `load_current_segments`: one pass over the manifest, stopping at the first defect. */
  method LoadCurrentSegments(files: map<nat, Segment>, m: Manifest) returns (r: Result<Loaded>)
    ensures r == LoadSegments(files, m, |m.names|)
    ensures r.Ok? <==> Chained(files, m, |m.names|)
    ensures r.Err? ==> r.error == CorruptStorage
    ensures r.Ok? ==> HoldsChain(files, m, |m.names|, r.value.coll.points)
    ensures r.Ok? ==> HoldsGraphs(files, m, |m.names|, r.value.indexes)
    ensures r.Ok? && m.names != [] ==> r.value.coll.sequence == m.sequence
  {
    LoadDecides(files, m, |m.names|);
    var points: Points := map[];
    var previous := 0;
    var indexes: seq<IndexSegment> := [];
    for k := 0 to |m.names|
      invariant LoadSegments(files, m, k) == Ok(Loaded(Coll(points, previous), indexes))
    {
      if m.names[k] !in files {
        LoadErrorStays(files, m, k + 1, |m.names|);
        return Err(CorruptStorage);
      }
      var seg := files[m.names[k]];
      if (k == 0 && !seg.full) || (k > 0 && (seg.full || seg.sequence <= previous)) {
        LoadErrorStays(files, m, k + 1, |m.names|);
        return Err(CorruptStorage);
      }
      if k + 1 == |m.names| && seg.sequence != m.sequence {
        LoadErrorStays(files, m, k + 1, |m.names|);
        return Err(CorruptStorage);
      }
      if seg.full {
        if exists id :: id in seg.points && seg.points[id].sequence > seg.sequence {
          LoadErrorStays(files, m, k + 1, |m.names|);
          return Err(CorruptStorage);
        }
        points := seg.points;
      } else {
        points := points + seg.points;
        points := points - seg.tombstones;
      }
      previous := seg.sequence;
      if seg.points != map[] {
        indexes := indexes + [IndexSegment(seg.sequence, seg.points)];
      }
    }
    r := Ok(Loaded(Coll(points, previous), indexes));
  }

  lemma {:induction false} ReplayErrorStays(cfg: Config, coll: Coll, wal: seq<Frame>, k: nat)
    requires k <= |wal| && ReplayWal(cfg, coll, wal[..k]).Err?
    ensures ReplayWal(cfg, coll, wal) == ReplayWal(cfg, coll, wal[..k])
    decreases |wal|
  {
    if k < |wal| {
      var init := wal[..|wal| - 1];
      assert init[..k] == wal[..k];
      ReplayErrorStays(cfg, coll, init, k);
    } else {
      assert wal[..k] == wal;
    }
  }

  /** `recover` on complete frames: replay in order and collect the touched IDs. */
  method ReplayFrames(cfg: Config, start: Coll, wal: seq<Frame>) returns (r: Result<(Coll, set<Id>)>)
    ensures r == ReplayWal(cfg, start, wal)
    ensures r.Ok? <==> Replays(cfg, start.sequence, wal)
    ensures r.Ok? ==> r.value.0.sequence == HighWater(start.sequence, wal, |wal|)
    ensures r.Ok? ==> forall id :: id in r.value.1 <==> Renews(start.sequence, wal, id)
  {
    ReplayDecides(cfg, start, wal);
    var coll := start;
    var dirty: set<Id> := {};
    for k := 0 to |wal|
      invariant ReplayWal(cfg, start, wal[..k]) == Ok((coll, dirty))
    {
      assert wal[..k + 1][..k] == wal[..k];
      var step := ReplayFrame(cfg, coll, wal[k]);
      if step.Err? {
        ReplayErrorStays(cfg, start, wal, k + 1);
        return Err(step.error);
      }
      coll := step.value.0;
      dirty := dirty + step.value.1;
    }
    assert wal[..|wal|] == wal;
    r := Ok((coll, dirty));
  }

  // ----- publication as one state change ---------------------------------

  /** The files of the replaced chain that `publish_flush` unlinks. */
  function Retired(previous: Option<Manifest>, seg: Segment): set<nat> {
    if seg.full && previous.Some? then set n | n in previous.value.names && n != seg.sequence else {}
  }

  /** The system after an uninterrupted `publish_flush`. */
  ghost function Published(s: System, flush: Flush): System
    requires Up(s)
  {
    var seg, mem, previous := flush.segment, s.memory.value, s.disk.manifest;
    var caughtUp := mem.coll.sequence == seg.sequence;
    s.(disk := Disk(if caughtUp then [] else s.disk.wal,
                    s.disk.files[seg.sequence := seg] - Retired(previous, seg),
                    Some(NextManifest(previous, seg))),
       memory := Some(Memory(ReplacePersisted(mem.coll, seg.points),
                             PushGraph(if seg.full then [] else mem.indexes, seg),
                             Some(flush.metadata), if caughtUp then {} else mem.dirty)),
       flights := s.flights - multiset{flush},
       walStart := if caughtUp then |s.history| else s.walStart,
       base := seg.sequence)
  }

  datatype PreparedFlush = PreparedFlush(flush: Flush, index: Index)

  /** Outside the dirty set the metadata index describes the live collection. */
  lemma MetadataAgrees(h: seq<Mutation>, mem: Memory, base: nat)
    requires MemoryInv(h, mem, base) && mem.metadata.Some?
    ensures AgreeOutside(mem.metadata.value, mem.coll.points, mem.dirty)
  {
    forall id | id !in mem.dirty ensures SameOn(mem.metadata.value, mem.coll.points, id) {
      Untouched(h, base, mem.coll.sequence, id);
    }
  }

  // ----- graph hits ------------------------------------------------------

  /** The hits of graph `i` that the search accepts, among `found`. */
  ghost function GraphHits(mem: Memory, i: nat, found: set<Id>, score: Vector -> int): set<Hit> {
    set id | id in found && AcceptsHit(mem, i, id) :: HitOf(mem.coll.points[id], score)
  }

  /** Whatever graph `i` left out is beaten by `k` of the hits it found. */
  ghost predicate NothingMissed(mem: Memory, i: nat, found: set<Id>, score: Vector -> int, k: nat) {
    forall id :: AcceptsHit(mem, i, id) && id !in found ==>
      Dominated(HitOf(mem.coll.points[id], score), GraphHits(mem, i, found, score), k)
  }

  ghost function FoundHits(mem: Memory, found: seq<set<Id>>, n: nat, score: Vector -> int): set<Hit>
    requires n <= |found|
  {
    if n == 0 then {} else FoundHits(mem, found, n - 1, score) + GraphHits(mem, n - 1, found[n - 1], score)
  }

  lemma {:induction false} FoundHitsIncludes(mem: Memory, found: seq<set<Id>>, n: nat, i: nat, score: Vector -> int)
    requires i < n <= |found|
    ensures GraphHits(mem, i, found[i], score) <= FoundHits(mem, found, n, score)
  {
    if i < n - 1 { FoundHitsIncludes(mem, found, n - 1, i, score); }
  }

  lemma {:induction false} FoundHitsAreLive(mem: Memory, found: seq<set<Id>>, n: nat, score: Vector -> int)
    requires n <= |found|
    ensures FoundHits(mem, found, n, score) <= AllHits(mem.coll.points, None, score)
  {
    if n > 0 { FoundHitsAreLive(mem, found, n - 1, score); }
  }

  lemma {:induction false} FoundHitsIgnoreMetadata(
      mem: Memory, metadata: Option<Points>, found: seq<set<Id>>, n: nat, score: Vector -> int)
    requires n <= |found|
    ensures FoundHits(mem.(metadata := metadata), found, n, score) == FoundHits(mem, found, n, score)
  {
    if n > 0 { FoundHitsIgnoreMetadata(mem, metadata, found, n - 1, score); }
  }

  /** Screens the hits of every graph in turn. */
  method AcceptHits(mem: Memory, found: seq<set<Id>>, score: Vector -> int) returns (hits: seq<Hit>)
    requires |found| == |mem.indexes|
    ensures Elements(hits) == FoundHits(mem, found, |found|, score)
  {
    hits := [];
    for i := 0 to |found|
      invariant Elements(hits) == FoundHits(mem, found, i, score)
    {
      ghost var before := hits;
      var rest := found[i];
      while rest != {}
        invariant rest <= found[i]
        invariant Elements(hits) == Elements(before) + GraphHits(mem, i, found[i] - rest, score)
        decreases rest
      {
        var id :| id in rest;
        if AcceptsHit(mem, i, id) {
          ElementsAppend(hits, HitOf(mem.coll.points[id], score));
          hits := hits + [HitOf(mem.coll.points[id], score)];
        }
        rest := rest - {id};
      }
      assert found[i] - rest == found[i];
    }
  }

  lemma CandidatesAreHits(
      mem: Memory, found: seq<set<Id>>, hits: seq<Hit>, pending: seq<Hit>, score: Vector -> int, k: nat)
    requires WellKeyed(mem.coll.points) && Elements(hits) == FoundHits(mem, found, |found|, score)
    requires IsTopK(pending, HitsAmong(mem.coll.points, mem.dirty, None, score), k)
    ensures Elements(hits + pending) == Elements(hits) + Elements(pending)
    ensures Elements(hits + pending) <= AllHits(mem.coll.points, None, score)
    ensures OnePerId(Elements(hits + pending))
  {
    FoundHitsAreLive(mem, found, |found|, score);
    HitsAreOnePerId(mem.coll.points, mem.coll.points.Keys, None, score);
    assert Elements(hits + pending) == Elements(hits) + Elements(pending);
  }

  lemma MissedIsDominated(
      mem: Memory, found: seq<set<Id>>, hits: seq<Hit>, pending: seq<Hit>, score: Vector -> int, k: nat, id: Id)
    requires |found| == |mem.indexes| && Covered(mem.coll.points, mem.indexes, mem.dirty)
    requires Elements(hits) == FoundHits(mem, found, |found|, score)
    requires IsTopK(pending, HitsAmong(mem.coll.points, mem.dirty, None, score), k)
    requires forall i :: 0 <= i < |found| ==> NothingMissed(mem, i, found[i], score, k)
    requires id in mem.coll.points && HitOf(mem.coll.points[id], score) !in hits + pending
    ensures Dominated(HitOf(mem.coll.points[id], score), Elements(hits) + Elements(pending), k)
  {
    var hit, candidates := HitOf(mem.coll.points[id], score), Elements(hits) + Elements(pending);
    if id in mem.dirty {
      DroppedIsDominated(pending, HitsAmong(mem.coll.points, mem.dirty, None, score), k, hit, candidates);
    } else {
      assert InGraph(mem.indexes, id, mem.coll.points[id].sequence);
      var i :| 0 <= i < |mem.indexes|
        && id in mem.indexes[i].points && mem.coll.points[id].sequence <= mem.indexes[i].sequence;
      assert AcceptsHit(mem, i, id);
      assert NothingMissed(mem, i, found[i], score, k);
      if id in found[i] {
        assert hit in GraphHits(mem, i, found[i], score);
        FoundHitsIncludes(mem, found, |found|, i, score);
      } else {
        FoundHitsIncludes(mem, found, |found|, i, score);
        assert Dominated(hit, GraphHits(mem, i, found[i], score), k);
        var better :| Beats(better, hit) && better <= GraphHits(mem, i, found[i], score) && |better| == k;
        assert better <= candidates;
      }
    }
  }

  lemma MergedGraphsAreExact(
      mem: Memory, found: seq<set<Id>>, hits: seq<Hit>, pending: seq<Hit>, r: seq<Hit>, score: Vector -> int, k: nat)
    requires WellKeyed(mem.coll.points)
    requires |found| == |mem.indexes| && Covered(mem.coll.points, mem.indexes, mem.dirty)
    requires Elements(hits) == FoundHits(mem, found, |found|, score)
    requires IsTopK(pending, HitsAmong(mem.coll.points, mem.dirty, None, score), k)
    requires forall i :: 0 <= i < |found| ==> NothingMissed(mem, i, found[i], score, k)
    requires IsTopK(r, Elements(hits + pending), k)
    ensures IsTopK(r, AllHits(mem.coll.points, None, score), k)
  {
    var all := AllHits(mem.coll.points, None, score);
    CandidatesAreHits(mem, found, hits, pending, score, k);
    HitsAreOnePerId(mem.coll.points, mem.coll.points.Keys, None, score);
    forall h | h in all && h !in Elements(hits + pending) ensures Dominated(h, Elements(hits + pending), k) {
      var id :| id in mem.coll.points && h == HitOf(mem.coll.points[id], score);
      MissedIsDominated(mem, found, hits, pending, score, k, id);
    }
    TopKOfCandidates(r, Elements(hits + pending), all, k);
  }

  /** Of the dirty points their best `k` may stand for all. */
  lemma MergedIsBoth(
      mem: Memory, found: seq<set<Id>>, hits: seq<Hit>, pending: seq<Hit>, r: seq<Hit>, score: Vector -> int, k: nat)
    requires WellKeyed(mem.coll.points) && Elements(hits) == FoundHits(mem, found, |found|, score)
    requires IsTopK(pending, HitsAmong(mem.coll.points, mem.dirty, None, score), k)
    requires IsTopK(r, Elements(hits + pending), k)
    ensures IsTopK(r, FoundHits(mem, found, |found|, score) + HitsAmong(mem.coll.points, mem.dirty, None, score), k)
  {
    var left, right := Elements(hits), HitsAmong(mem.coll.points, mem.dirty, None, score);
    CandidatesAreHits(mem, found, hits, pending, score, k);
    FoundHitsAreLive(mem, found, |found|, score);
    HitsAreOnePerId(mem.coll.points, mem.coll.points.Keys, None, score);
    assert left + right <= AllHits(mem.coll.points, None, score);
    HalfMergeTopK(left, pending, right, r, k);
  }

  /** Without a graph every live point is dirty. */
  lemma AllAreDirty(mem: Memory, found: seq<set<Id>>, score: Vector -> int)
    requires mem.indexes == [] && |found| == 0 && Covered(mem.coll.points, mem.indexes, mem.dirty)
    ensures FoundHits(mem, found, |found|, score) + HitsAmong(mem.coll.points, mem.dirty, None, score)
      == AllHits(mem.coll.points, None, score)
  {
    forall id | id in mem.coll.points ensures id in mem.dirty {
      assert id !in mem.dirty ==> InGraph(mem.indexes, id, mem.coll.points[id].sequence);
    }
  }

  // ----- the object ------------------------------------------------------

  /**
   What an unfiltered search guarantees when graph `i` returned `found[i]`: the best `k` of
   the accepted graph hits and the dirty points, all of them live, and the exact answer when
   no graph missed a hit that belongs to its own best `k`, as when there is no graph.
   */
  ghost predicate Answers(mem: Memory, found: seq<set<Id>>, score: Vector -> int, k: nat, r: seq<Hit>)
    requires |found| == |mem.indexes|
  {
    && Ranked(r) && |r| <= k && Elements(r) <= AllHits(mem.coll.points, None, score)
    && IsTopK(r, FoundHits(mem, found, |found|, score) + HitsAmong(mem.coll.points, mem.dirty, None, score), k)
    && ((forall i :: 0 <= i < |found| ==> NothingMissed(mem, i, found[i], score, k)) ==>
          IsTopK(r, AllHits(mem.coll.points, None, score), k))
  }

  /** A request that passes validation and fits the log. */
  predicate Accepts(cfg: Config, m: Mutation) {
    Prepare(cfg, m).Ok? && cfg.encodable(Prepare(cfg, m).value)
  }

  /** The prepared batch was appended to the log as frame number `at`, and no other file changed. */
  ghost predicate Logged(cfg: Config, m: Mutation, at: nat, before: Disk, after: Disk) {
    && after.files == before.files && after.manifest == before.manifest
    && |after.wal| == |before.wal| + 1 && after.wal[..|before.wal|] == before.wal
    && after.wal[|before.wal|].sequence == at && Prepare(cfg, m) == Ok(after.wal[|before.wal|].mutation)
  }

  /** The manifest is newer than a flush with number `sequence`. */
  ghost predicate Superseded(disk: Disk, sequence: nat) {
    disk.manifest.Some? && disk.manifest.value.sequence > sequence
  }

  /**
   The manifest of `after` names the segment, alone if it is full and behind the former names
   otherwise; the file is in place and a full one leaves no other file of the former chain.
   */
  ghost predicate Replaces(before: Disk, seg: Segment, after: Disk) {
    && after.manifest == Some(Manifest(seg.sequence,
         (if seg.full || before.manifest.None? then [] else before.manifest.value.names) + [seg.sequence]))
    && seg.sequence in after.files && after.files[seg.sequence] == seg
    && forall n :: n != seg.sequence ==>
         && (n in after.files <==>
               n in before.files && !(seg.full && before.manifest.Some? && n in before.manifest.value.names))
         && (n in after.files ==> after.files[n] == before.files[n])
  }

  /**
   The process takes over the segment: its graph joins or replaces the others, and with nothing
   written since the snapshot the log and the dirty set are emptied.
   */
  ghost predicate TakesOver(before: Memory, was: Disk, seg: Segment, after: Memory, disk: Disk) {
    && (if before.coll.sequence == seg.sequence then disk.wal == [] && after.dirty == {}
        else disk.wal == was.wal && after.dirty == before.dirty)
    && after.indexes == (if seg.full then [] else before.indexes)
         + (if seg.points == map[] then [] else [IndexSegment(seg.sequence, seg.points)])
    && after.coll.sequence == before.coll.sequence && after.coll.points.Keys == before.coll.points.Keys
  }

  lemma PublishedReplaces(s: System, flush: Flush)
    requires Up(s)
    ensures Replaces(s.disk, flush.segment, Published(s, flush).disk)
    ensures var t := Published(s, flush);
      TakesOver(s.memory.value, s.disk, flush.segment, t.memory.value, t.disk)
  {
  }

  /** A write and its acknowledgement together. */
  lemma WrittenIs(cfg: Config, s: System, raw: Mutation)
    requires Enabled(cfg, s, Write(raw))
    ensures var t, mem, m := Do(cfg, Do(cfg, s, Write(raw)), Acknowledge), s.memory.value, Prepare(cfg, raw).value;
      && Up(t) && t.memory.value.coll == Apply(mem.coll, m, mem.coll.sequence + 1)
      && t.memory.value.dirty == mem.dirty + Touched(m)
      && t.disk == s.disk.(wal := s.disk.wal + [Frame(mem.coll.sequence + 1, m)])
  {
  }

  class PersistentCollection {
    const cfg: Config
    const inner: Collection
    var disk: Disk
    var indexes: seq<IndexSegment>
    var metadataIndex: Option<Index>
    var dirty: set<Id>
    ghost var indexed: Points
    ghost var system: System

    ghost function View(): Memory
      reads this, inner
    {
      Memory(inner.View(), indexes, if metadataIndex.Some? then Some(indexed) else None, dirty)
    }

    /** The object is the running process of `system`. */
    ghost predicate Valid()
      reads this, inner
    {
      && inner.cfg == cfg
      && system.disk == disk
      && system.phase.Idle?
      && system.memory == Some(View())
      && (metadataIndex.Some? ==> Indexes(metadataIndex.value, indexed))
    }

    constructor Restore(cfg: Config, disk: Disk, loaded: Memory, index: Option<Index>, ghost down: System)
      requires index.Some? == loaded.metadata.Some?
      requires index.Some? ==> Indexes(index.value, loaded.metadata.value)
      requires !Up(down) && down.phase.Idle? && down.disk == disk && Recover(cfg, disk) == Ok(loaded)
      ensures Valid() && fresh(inner) && this.cfg == cfg && View() == loaded
      ensures system == Do(cfg, down, Reopen)
    {
      this.cfg := cfg;
      this.disk := disk;
      var c := new Collection(cfg);
      c.points := loaded.coll.points;
      c.sequence := loaded.coll.sequence;
      inner := c;
      indexes := loaded.indexes;
      metadataIndex := index;
      dirty := loaded.dirty;
      indexed := if loaded.metadata.Some? then loaded.metadata.value else map[];
      system := Do(cfg, down, Reopen);
    }

    /** `open`: fails exactly when recovery fails, and otherwise performs the `Reopen` step. */
    static method Open(cfg: Config, disk: Disk, ghost down: System) returns (r: Result<PersistentCollection>)
      requires !Up(down) && down.phase.Idle? && down.disk == disk
      ensures r.Ok? <==> Recover(cfg, disk).Ok?
      ensures r.Err? ==> r.error == Recover(cfg, disk).error
      ensures r.Ok? ==> fresh(r.value) && fresh(r.value.inner) && r.value.Valid() && r.value.cfg == cfg
      ensures r.Ok? ==> r.value.system == Do(cfg, down, Reopen)
      ensures r.Ok? <==> Opens(cfg, disk)
      ensures r.Ok? ==> r.value.metadataIndex.Some? == disk.manifest.Some?
      ensures r.Ok? ==> forall id :: id in r.value.dirty <==> Renews(ManifestSequence(disk.manifest), disk.wal, id)
    {
      RecoverDecides(cfg, disk);
      var start := EMPTY;
      var indexes: seq<IndexSegment> := [];
      var metadata: Option<Points> := None;
      var index: Option<Index> := None;
      if disk.manifest.Some? {
        if !ReadableManifest(disk.manifest.value) {
          return Err(CorruptStorage);
        }
        var loaded := LoadCurrentSegments(disk.files, disk.manifest.value);
        if loaded.Err? {
          return Err(loaded.error);
        }
        start := loaded.value.coll;
        indexes := loaded.value.indexes;
        metadata := Some(start.points);
        var built := Build(start.points);
        index := Some(built);
      }
      var replayed := ReplayFrames(cfg, start, disk.wal);
      if replayed.Err? {
        return Err(replayed.error);
      }
      var mem := Memory(replayed.value.0, indexes, metadata, replayed.value.1);
      var c := new PersistentCollection.Restore(cfg, disk, mem, index, down);
      r := Ok(c);
    }

    /** Log, apply and mark a prepared batch; the caller sees the new sequence. */
    method LogAndApply(raw: Mutation, m: Mutation)
      requires Valid() && Prepare(cfg, raw) == Ok(m) && inner.sequence < U64_MAX
      modifies this, inner
      ensures Valid()
      ensures Enabled(cfg, old(system), Write(raw))
      ensures system == Do(cfg, Do(cfg, old(system), Write(raw)), Acknowledge)
    {
      var at := inner.sequence + 1;
      disk := disk.(wal := disk.wal + [Frame(at, m)]);
      system := Do(cfg, system, Write(raw));
      match m {
        case Upsert(batch) => inner.ApplyPreparedUpsert(batch, at);
        case Delete(ids) => inner.ApplyDeleteAt(ids, at);
      }
      dirty := dirty + Touched(m);
      system := Do(cfg, system, Acknowledge);
    }

    method UpsertBatch(batch: seq<UpsertPoint>) returns (r: Result<nat>)
      requires Valid()
      modifies this, inner
      ensures Valid()
      ensures r.Ok? <==> old(inner.sequence) < U64_MAX && Accepts(cfg, Upsert(batch))
      ensures r.Err? ==> system == old(system)
      ensures r.Ok? ==> Enabled(cfg, old(system), Write(Upsert(batch))) && r.value == old(inner.sequence) + 1
      ensures r.Ok? ==> system == Do(cfg, Do(cfg, old(system), Write(Upsert(batch))), Acknowledge)
      ensures old(inner.sequence) >= U64_MAX ==> r == Err(SequenceOverflow)
      ensures old(inner.sequence) < U64_MAX && batch == [] ==> r == Err(InvalidQuery)
      ensures old(inner.sequence) < U64_MAX && (exists i :: 0 <= i < |batch| && Defect(cfg, batch[i]).Some?) ==>
        r.Err? && exists i: nat :: FirstDefect(cfg, batch, i, r.error)
      ensures r.Ok? ==> inner.sequence == r.value && Upserted(cfg, batch, r.value, old(inner.points), inner.points)
      ensures r.Ok? ==> forall id :: id in dirty <==> id in old(dirty) || Mentions(Upsert(batch), id)
      ensures r.Ok? ==> Logged(cfg, Upsert(batch), r.value, old(disk), disk)
      ensures old(inner.sequence) < U64_MAX && Prepare(cfg, Upsert(batch)).Ok? && r.Err? ==> r.error == InvalidQuery
    {
      if inner.sequence >= U64_MAX {
        return Err(SequenceOverflow);
      }
      var prepared := inner.PrepareUpsert(batch);
      if prepared.Err? {
        return Err(prepared.error);
      }
      if !cfg.encodable(Upsert(prepared.value)) {
        return Err(InvalidQuery);
      }
      r := Ok(inner.sequence + 1);
      UpsertMeans(cfg, inner.View(), batch, r.value);
      PrepareTouches(cfg, Upsert(batch));
      WrittenIs(cfg, system, Upsert(batch));
      LogAndApply(Upsert(batch), Upsert(prepared.value));
    }

    method DeleteBatch(ids: seq<Id>) returns (r: Result<nat>)
      requires Valid()
      modifies this, inner
      ensures Valid()
      ensures r.Ok? <==> old(inner.sequence) < U64_MAX && Accepts(cfg, Delete(ids))
      ensures r.Err? ==> system == old(system)
      ensures r.Ok? ==> Enabled(cfg, old(system), Write(Delete(ids))) && r.value == old(inner.sequence) + 1
      ensures r.Ok? ==> system == Do(cfg, Do(cfg, old(system), Write(Delete(ids))), Acknowledge)
      ensures ids == [] || "" in ids ==> r == Err(InvalidQuery)
      ensures ids != [] && "" !in ids && old(inner.sequence) >= U64_MAX ==> r == Err(SequenceOverflow)
      ensures r.Ok? ==> inner.sequence == r.value && Deleted(ids, old(inner.points), inner.points)
      ensures r.Ok? ==> forall id :: id in dirty <==> id in old(dirty) || id in ids
      ensures r.Ok? ==> Logged(cfg, Delete(ids), r.value, old(disk), disk)
      ensures old(inner.sequence) < U64_MAX && r.Err? ==> r.error == InvalidQuery
    {
      if ids == [] || "" in ids {
        return Err(InvalidQuery);
      }
      if inner.sequence >= U64_MAX {
        return Err(SequenceOverflow);
      }
      if !cfg.encodable(Delete(ids)) {
        return Err(InvalidQuery);
      }
      r := Ok(inner.sequence + 1);
      WrittenIs(cfg, system, Delete(ids));
      LogAndApply(Delete(ids), Delete(ids));
    }

    /** `flush_snapshot` under the read lock. */
    method FlushSnapshot() returns (flush: Flush)
      requires Valid()
      modifies this`system
      ensures Valid() && flush == SnapshotOf(View())
      ensures system == Do(cfg, old(system), Snapshot) && flush in system.flights
      ensures flush.metadata == inner.points && flush.segment.sequence == inner.sequence
      ensures flush.segment.full <==> |indexes| == 0 || |indexes| >= 8
      ensures flush.segment.full ==> flush.segment.points == inner.points && flush.segment.tombstones == {}
      ensures !flush.segment.full ==>
        && (forall id :: id in flush.segment.points <==> id in dirty && id in inner.points)
        && (forall id :: id in flush.segment.points ==> flush.segment.points[id] == inner.points[id])
        && (forall id :: id in flush.segment.tombstones <==> id in dirty && id !in inner.points)
    {
      flush := SnapshotOf(Memory(Coll(inner.points, inner.sequence), indexes, None, dirty));
      system := Do(cfg, system, Snapshot);
    }

    /** `build_flush`, off-lock. */
    static method BuildFlush(flush: Flush) returns (p: PreparedFlush)
      ensures p.flush == flush && Indexes(p.index, flush.metadata)
    {
      var index := Build(flush.metadata);
      p := PreparedFlush(flush, index);
    }

    /** `publish_flush`: nothing for a stale flush, all of `Published` otherwise. */
    method PublishFlush(p: PreparedFlush) returns (sequence: nat)
      requires Valid() && p.flush in system.flights && Indexes(p.index, p.flush.metadata)
      modifies this, inner
      ensures Valid()
      ensures Stale(old(disk).manifest, p.flush) ==>
        sequence == old(disk).manifest.value.sequence && system == Do(cfg, old(system), Drop(p.flush))
      ensures !Stale(old(disk).manifest, p.flush) ==>
        sequence == p.flush.segment.sequence && system == Published(old(system), p.flush)
      ensures Superseded(old(disk), p.flush.segment.sequence) ==>
        disk == old(disk) && indexes == old(indexes) && dirty == old(dirty) && inner.View() == old(inner.View())
      ensures !Superseded(old(disk), p.flush.segment.sequence) ==>
        Replaces(old(disk), p.flush.segment, disk) && TakesOver(old(View()), old(disk), p.flush.segment, View(), disk)
    {
      var previous := disk.manifest;
      var seg := p.flush.segment;
      if previous.Some? && previous.value.sequence > seg.sequence {
        system := Do(cfg, system, Drop(p.flush));
        return previous.value.sequence;
      }
      ghost var published := Published(system, p.flush);
      sequence := seg.sequence;
      var files := disk.files[sequence := seg];
      var names := if seg.full || previous.None? then [] else previous.value.names;
      names := names + [sequence];
      disk := disk.(files := files, manifest := Some(Manifest(sequence, names)));
      inner.ReplacePersistedPoints(seg.points);
      if inner.sequence == sequence {
        disk := disk.(wal := []);
        dirty := {};
      }
      if seg.full {
        indexes := [];
        if previous.Some? {
          files := Unlink(files, previous.value.names, sequence);
          disk := disk.(files := files);
        }
      }
      indexes := PushGraph(indexes, seg);
      metadataIndex := Some(p.index);
      indexed := p.flush.metadata;
      system := published;
      PublishedReplaces(old(system), p.flush);
    }

    /** `flush`: the guard, then snapshot, build and publish without letting go of the collection. */
    method FlushNow() returns (sequence: nat)
      requires Valid()
      modifies this, inner
      ensures Valid()
      ensures old(dirty) == {} && old(indexes) != [] ==> sequence == old(inner.sequence) && system == old(system)
      ensures !(old(dirty) == {} && old(indexes) != []) ==>
        var flush := SnapshotOf(old(View()));
        && (Stale(old(disk).manifest, flush) ==> system == Do(cfg, Do(cfg, old(system), Snapshot), Drop(flush)))
        && (!Stale(old(disk).manifest, flush) ==>
              sequence == old(inner.sequence) && system == Published(Do(cfg, old(system), Snapshot), flush))
    {
      if dirty == {} && indexes != [] {
        return inner.sequence;
      }
      var flush := FlushSnapshot();
      var prepared := BuildFlush(flush);
      sequence := PublishFlush(prepared);
    }

    /** The filtered plan of `search_with_ef` returns exactly what the oracle returns. */
    method SearchFiltered(query: Vector, k: nat, filter: Filter) returns (r: Result<seq<Hit>>)
      requires Valid() && Inv(cfg, system)
      ensures var q := CheckQuery(cfg, k, query);
        && (q.Err? ==> r == Err(q.error))
        && (q.Ok? ==> r.Ok? && IsTopK(r.value, AllHits(inner.points, Some(filter), ScoreBy(cfg, q.value)), k))
      ensures ExactAnswer(cfg, inner.points, inner.points.Keys, query, k, Some(filter), r)
    {
      HistoryIsWellKeyed(system.history, inner.sequence);
      if metadataIndex.None? {
        r := inner.Search(query, k, Some(filter));
        return;
      }
      var q := CheckQuery(cfg, k, query);
      if q.Err? {
        r := Err(q.error);
        TopKIsAnswer(cfg, inner.points, inner.points.Keys, query, k, Some(filter), r);
        return;
      }
      MetadataAgrees(system.history, View(), system.base);
      var hits := ExactPlan(inner.points, metadataIndex.value, indexed, dirty, k, filter, ScoreBy(cfg, q.value));
      r := Ok(hits);
      TopKIsAnswer(cfg, inner.points, inner.points.Keys, query, k, Some(filter), r);
    }

    /**
     The unfiltered plan: `found[i]` is whatever graph `i` returned. The result ranks the
     accepted graph hits, rescored with the live vectors, together with the dirty points;
     when no graph misses a hit that belongs to its own best `k`, it is the exact answer.
     */
    method SearchGraphs(query: Vector, k: nat, found: seq<set<Id>>) returns (r: Result<seq<Hit>>)
      requires Valid() && Inv(cfg, system) && |found| == |indexes|
      ensures CheckQuery(cfg, k, query).Err? ==> r == Err(CheckQuery(cfg, k, query).error)
      ensures CheckQuery(cfg, k, query).Ok? ==>
        r.Ok? && Answers(View(), found, ScoreBy(cfg, CheckQuery(cfg, k, query).value), k, r.value)
      ensures indexes == [] ==> ExactAnswer(cfg, inner.points, inner.points.Keys, query, k, None, r)
    {
      HistoryIsWellKeyed(system.history, inner.sequence);
      if indexes == [] {
        AllAreDirty(View(), found, if CheckQuery(cfg, k, query).Ok?
          then ScoreBy(cfg, CheckQuery(cfg, k, query).value) else ScoreBy(cfg, query));
        r := inner.Search(query, k, None);
        return;
      }
      var q := CheckQuery(cfg, k, query);
      if q.Err? {
        return Err(q.error);
      }
      var score := ScoreBy(cfg, q.value);
      ghost var mem := View();
      var hits := AcceptHits(Memory(Coll(inner.points, inner.sequence), indexes, None, dirty), found, score);
      var pending := RankIds(inner.points, k, dirty, None, score);
      FoundHitsIgnoreMetadata(mem, None, found, |found|, score);
      CandidatesAreHits(mem, found, hits, pending, score, k);
      var merged := MergeHits(hits + pending, k);
      MergedIsBoth(mem, found, hits, pending, merged, score, k);
      if forall i :: 0 <= i < |found| ==> NothingMissed(mem, i, found[i], score, k) {
        MergedGraphsAreExact(mem, found, hits, pending, merged, score, k);
      }
      r := Ok(merged);
    }

    /** `search_with_ef`: `found` is what the graphs return when there is no filter. */
    method SearchWithEf(query: Vector, k: nat, filter: Option<Filter>, ef: nat, found: seq<set<Id>>)
      returns (r: Result<seq<Hit>>)
      requires Valid() && Inv(cfg, system) && |found| == |indexes|
      ensures r.Err? <==> ef < k || CheckQuery(cfg, k, query).Err?
      ensures ef < k ==> r == Err(InvalidQuery)
      ensures ef >= k && CheckQuery(cfg, k, query).Err? ==> r == Err(CheckQuery(cfg, k, query).error)
      ensures r.Ok? ==> var score := ScoreBy(cfg, CheckQuery(cfg, k, query).value);
        && (filter.Some? ==> IsTopK(r.value, AllHits(inner.points, filter, score), k))
        && (filter.None? ==> Answers(View(), found, score, k, r.value))
      ensures ef >= k && (filter.Some? || indexes == []) ==>
        ExactAnswer(cfg, inner.points, inner.points.Keys, query, k, filter, r)
    {
      if ef < k {
        return Err(InvalidQuery);
      }
      if filter.Some? {
        r := SearchFiltered(query, k, filter.value);
      } else {
        r := SearchGraphs(query, k, found);
      }
    }

    /** Removes the files of a replaced chain, sparing the segment that replaced it. */
    static method Unlink(files: map<nat, Segment>, names: seq<nat>, spared: nat) returns (r: map<nat, Segment>)
      ensures r == files - set n | n in names && n != spared
    {
      r := files;
      for i := 0 to |names|
        invariant r == files - set n | n in names[..i] && n != spared
      {
        assert names[..i + 1] == names[..i] + [names[i]];
        if names[i] != spared {
          r := r - {names[i]};
        }
      }
      assert names[..|names|] == names;
    }
  }
}
