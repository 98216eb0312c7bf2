/**
 Crash safety of the durability engine over whole runs: at every reachable
 state, whatever the phase, reopening the directory restores the committed
 history, and the dirty set, the loaded graphs and the metadata index together
 account for every live point. Replay prepares the batches that only the log
 holds once more; it fails if and only if one of them is refused then.
 */
module CrashSafety {
  import opened Base
  import opened Collections
  import opened Durability

  // ----- the invariant ---------------------------------------------------

  /** The frame of a batch holds it as the process that wrote it applied it; replay prepares it again. */
  ghost predicate LoggedAs(cfg: Config, logged: Mutation, applied: Mutation) {
    logged == applied || Prepare(cfg, logged) == Ok(applied)
  }

  /** The log holds the frames of the history from `start` on. */
  ghost predicate WalInv(cfg: Config, h: seq<Mutation>, wal: seq<Frame>, start: nat) {
    && start <= |h|
    && |wal| == |h| - start
    && forall i {:trigger wal[i]} :: 0 <= i < |wal| ==>
      wal[i].sequence == start + i + 1 && LoggedAs(cfg, wal[i].mutation, h[start + i])
  }

  /** `versions` are versions that were live at sequence `n`. */
  ghost predicate LiveAt(h: seq<Mutation>, n: nat, versions: Points) {
    n <= |h| && forall id :: id in versions ==> id in At(h, n).points && versions[id] == At(h, n).points[id]
  }

  ghost predicate ChainShape(files: map<nat, Segment>, m: Manifest) {
    && 1 <= |m.names| <= MAX_INDEX_SEGMENTS + 1
    && (forall i :: 0 <= i < |m.names| ==>
          && m.names[i] in files
          && files[m.names[i]].sequence == m.names[i]
          && (files[m.names[i]].full <==> i == 0))
    && (forall i, j :: 0 <= i < j < |m.names| ==> m.names[i] < m.names[j])
    && m.names[|m.names| - 1] == m.sequence
  }

  /** The meaning of the first `k` segments: the full one overlaid by its deltas in order. */
  ghost function ChainPoints(files: map<nat, Segment>, names: seq<nat>, k: nat): Points
    requires k <= |names| && forall i :: 0 <= i < k ==> names[i] in files
  {
    if k == 0 then map[] else Overlay(ChainPoints(files, names, k - 1), files[names[k - 1]])
  }

  ghost predicate ChainInv(h: seq<Mutation>, files: map<nat, Segment>, m: Manifest) {
    && m.sequence <= |h|
    && ChainShape(files, m)
    && ChainPoints(files, m.names, |m.names|) == At(h, m.sequence).points
    && forall i :: 0 <= i < |m.names| ==> LiveAt(h, m.names[i], files[m.names[i]].points)
  }

  ghost predicate DiskInv(cfg: Config, h: seq<Mutation>, disk: Disk, start: nat) {
    && WalInv(cfg, h, disk.wal, start)
    && match disk.manifest
       case None => start == 0
       case Some(m) => start <= m.sequence && ChainInv(h, disk.files, m)
  }

  /** Every live point outside the dirty set is in a graph at least as new as the point. */
  ghost predicate Covered(points: Points, indexes: seq<IndexSegment>, dirty: set<Id>) {
    forall id :: id in points && id !in dirty ==> InGraph(indexes, id, points[id].sequence)
  }

  ghost predicate InGraph(indexes: seq<IndexSegment>, id: Id, sequence: nat) {
    exists i :: 0 <= i < |indexes| && id in indexes[i].points && sequence <= indexes[i].sequence
  }

  ghost predicate GraphsInv(h: seq<Mutation>, indexes: seq<IndexSegment>, n: nat) {
    forall i :: 0 <= i < |indexes| ==>
      indexes[i].sequence <= n && LiveAt(h, indexes[i].sequence, indexes[i].points)
  }

  ghost predicate MemoryInv(h: seq<Mutation>, mem: Memory, base: nat) {
    && base <= mem.coll.sequence <= |h|
    && mem.coll == At(h, mem.coll.sequence)
    && Changed(h, base, mem.coll.sequence) <= mem.dirty
    && (mem.metadata.None? ==> base == 0 && mem.indexes == [])
    && (mem.metadata.Some? ==> mem.metadata.value == At(h, base).points)
    && GraphsInv(h, mem.indexes, mem.coll.sequence)
    && Covered(mem.coll.points, mem.indexes, mem.dirty)
  }

  function Covers(seg: Segment): set<Id> { seg.points.Keys + seg.tombstones }

  /**
   A segment in flight holds versions live at its sequence. A full one holds
   them all; a delta covers everything that changed since the manifest, however
   many flushes were published after the delta was snapshotted.
   */
  ghost predicate SegmentInv(h: seq<Mutation>, manifest: Option<Manifest>, seg: Segment) {
    && seg.sequence <= |h|
    && LiveAt(h, seg.sequence, seg.points)
    && (forall id :: id in seg.tombstones ==> id !in At(h, seg.sequence).points)
    && (seg.full ==> seg.points == At(h, seg.sequence).points && seg.tombstones == {})
    && (!seg.full ==> manifest.Some?)
    && (!seg.full && ManifestSequence(manifest) <= seg.sequence ==>
          Changed(h, ManifestSequence(manifest), seg.sequence) <= Covers(seg))
  }

  ghost predicate FlushInv(h: seq<Mutation>, manifest: Option<Manifest>, mem: Memory, flush: Flush) {
    var seg := flush.segment;
    && SegmentInv(h, manifest, seg)
    && flush.metadata == At(h, seg.sequence).points
    && seg.sequence <= mem.coll.sequence <= |h|
    && (!seg.full ==> mem.dirty <= Covers(seg) + Changed(h, seg.sequence, mem.coll.sequence))
  }

  ghost predicate PhaseInv(s: System)
    requires Up(s)
  {
    var mem := s.memory.value;
    match s.phase
    case Idle => true
    case Appended => s.walStart < |s.history|
    case Renamed(flush, previous) =>
      && FlushInv(s.history, s.disk.manifest, mem, flush)
      && previous == s.disk.manifest
      && !Stale(previous, flush)
      && SafeToPublish(previous, flush.segment)
      && flush.segment.sequence in s.disk.files
      && s.disk.files[flush.segment.sequence] == flush.segment
    case Retiring(flush, previous) =>
      && FlushInv(s.history, s.disk.manifest, mem, flush)
      && s.disk.manifest == Some(NextManifest(previous, flush.segment))
    case _ =>
      && FlushInv(s.history, s.disk.manifest, mem, s.phase.flush)
      && s.disk.manifest == Some(NextManifest(s.phase.previous, s.phase.flush.segment))
      && s.phase.flush.segment.sequence in s.disk.files
      && s.disk.files[s.phase.flush.segment.sequence] == s.phase.flush.segment
      && (s.phase.Truncated? ==> mem.coll.sequence == s.phase.flush.segment.sequence)
  }

  ghost predicate UpInv(s: System)
    requires Up(s)
  {
    var mem := s.memory.value;
    && MemoryInv(s.history, mem, s.base)
    && s.base <= ManifestSequence(s.disk.manifest)
    && (mem.indexes != [] ==> s.disk.manifest.Some?)
    && s.acked == mem.coll.sequence
    && |s.history| == s.acked + (if s.phase.Appended? then 1 else 0)
    && (forall flush :: flush in s.flights ==> FlushInv(s.history, s.disk.manifest, mem, flush))
    && PhaseInv(s)
  }

  ghost predicate Inv(cfg: Config, s: System) {
    && DiskInv(cfg, s.history, s.disk, s.walStart)
    && ManifestSequence(s.disk.manifest) <= s.acked <= |s.history| <= s.acked + 1
    && (Up(s) ==> UpInv(s))
    && (!Up(s) ==> s.phase.Idle? && s.flights == multiset{})
  }

  // ----- reopening restores the history ----------------------------------

  /** Loading the first `k` segments of a sound chain yields their overlay. */
  lemma {:induction false} LoadChain(h: seq<Mutation>, files: map<nat, Segment>, m: Manifest, k: nat)
    requires ChainShape(files, m) && 1 <= k <= |m.names| && m.sequence <= |h|
    requires forall i :: 0 <= i < |m.names| ==> LiveAt(h, m.names[i], files[m.names[i]].points)
    ensures LoadSegments(files, m, k).Ok?
    ensures LoadSegments(files, m, k).value.coll == Coll(ChainPoints(files, m.names, k), m.names[k - 1])
  {
    var seg := files[m.names[k - 1]];
    forall id | id in seg.points ensures seg.points[id].sequence <= seg.sequence {
      VersionOrigin(h, m.names[k - 1], id);
    }
    if k > 1 {
      LoadChain(h, files, m, k - 1);
      assert m.names[k - 2] < m.names[k - 1];
    }
  }

  lemma GraphStep(h: seq<Mutation>, points: Points, indexes: seq<IndexSegment>, seg: Segment)
    requires Covered(points, indexes, {}) && LiveAt(h, seg.sequence, seg.points)
    ensures Covered(Overlay(points, seg), PushGraph(if seg.full then [] else indexes, seg), {})
  {
    var kept := if seg.full then [] else indexes;
    var after := PushGraph(kept, seg);
    var loaded := Overlay(points, seg);
    forall id | id in loaded ensures InGraph(after, id, loaded[id].sequence) {
      if id in seg.points {
        VersionOrigin(h, seg.sequence, id);
        assert after[|after| - 1] == IndexSegment(seg.sequence, seg.points);
      } else {
        var i :| 0 <= i < |indexes| && id in indexes[i].points && points[id].sequence <= indexes[i].sequence;
        assert after[i] == indexes[i];
      }
    }
  }

  /** The graphs loaded from a chain hold historical versions and cover every loaded point. */
  lemma {:induction false} LoadGraphs(h: seq<Mutation>, files: map<nat, Segment>, m: Manifest, k: nat)
    requires ChainShape(files, m) && k <= |m.names| && m.sequence <= |h|
    requires forall i :: 0 <= i < |m.names| ==> LiveAt(h, m.names[i], files[m.names[i]].points)
    ensures LoadSegments(files, m, k).Ok?
    ensures var l := LoadSegments(files, m, k).value;
      && GraphsInv(h, l.indexes, if k == 0 then 0 else m.names[k - 1])
      && Covered(l.coll.points, l.indexes, {})
  {
    if k > 0 {
      LoadGraphs(h, files, m, k - 1);
      LoadChain(h, files, m, k);
      var prior := LoadSegments(files, m, k - 1).value;
      GraphStep(h, prior.coll.points, prior.indexes, files[m.names[k - 1]]);
      if k > 1 { assert m.names[k - 2] < m.names[k - 1]; }
    }
  }

  /** The frames of `wal` that are not covered by `from` hold the batches of `g`, to be prepared. */
  ghost predicate ReplaysAs(cfg: Config, g: seq<Mutation>, wal: seq<Frame>, start: nat, from: nat) {
    && start + |wal| <= |g|
    && forall i {:trigger wal[i]} :: 0 <= i < |wal| ==>
      && wal[i].sequence == start + i + 1
      && (from <= start + i ==> Again(cfg, wal[i].mutation) == g[start + i])
  }

  predicate AllPrepare(cfg: Config, wal: seq<Frame>, start: nat, from: nat) {
    forall i :: 0 <= i < |wal| && from <= start + i ==> Prepare(cfg, wal[i].mutation).Ok?
  }

  /** The next frame of the log, replayed on the collection that its predecessors gave. */
  lemma ReplayNext(cfg: Config, g: seq<Mutation>, n: nat, frame: Frame)
    requires n < |g| && frame.sequence == n + 1 && Again(cfg, frame.mutation) == g[n]
    ensures var r := ReplayFrame(cfg, At(g, n), frame);
      if Prepare(cfg, frame.mutation).Ok? then r == Ok((At(g, n + 1), Touched(g[n]))) else r.Err?
  {
    AgainTouches(cfg, frame.mutation);
  }

  /** Replaying the log on the collection at `from` reaches the end of the log's history, or fails. */
  lemma {:induction false} ReplayHistory(cfg: Config, g: seq<Mutation>, wal: seq<Frame>, start: nat, from: nat)
    requires start <= from <= |g| && ReplaysAs(cfg, g, wal, start, from)
    ensures var end := if start + |wal| < from then from else start + |wal|;
      if AllPrepare(cfg, wal, start, from)
      then ReplayWal(cfg, At(g, from), wal) == Ok((At(g, end), Changed(g, from, end)))
      else ReplayWal(cfg, At(g, from), wal).Err?
    decreases |wal|
  {
    if wal != [] {
      var init := wal[..|wal| - 1];
      var n, last := start + |init|, wal[|init|];
      assert ReplaysAs(cfg, g, init, start, from) by {
        forall i | 0 <= i < |init| ensures init[i] == wal[i] {}
      }
      ReplayHistory(cfg, g, init, start, from);
      assert last.sequence == n + 1;
      AllPrepareSplits(cfg, wal, start, from);
      if from <= n {
        ReplayNext(cfg, g, n, last);
        assert Changed(g, from, n + 1) == Changed(g, from, n) + Touched(g[n]);
      } else {
        assert Changed(g, from, from) + {} == Changed(g, from, from);
      }
    }
  }

  lemma AllPrepareSplits(cfg: Config, wal: seq<Frame>, start: nat, from: nat)
    requires wal != []
    ensures var k := |wal| - 1;
      AllPrepare(cfg, wal, start, from) <==>
        AllPrepare(cfg, wal[..k], start, from) && (from <= start + k ==> Prepare(cfg, wal[k].mutation).Ok?)
  {
    var k := |wal| - 1;
    forall i | 0 <= i < k ensures wal[..k][i] == wal[i] {}
    if AllPrepare(cfg, wal[..k], start, from) && (from <= start + k ==> Prepare(cfg, wal[k].mutation).Ok?) {
      forall i | 0 <= i < |wal| && from <= start + i ensures Prepare(cfg, wal[i].mutation).Ok? {
        if i < k { assert Prepare(cfg, wal[..k][i].mutation).Ok?; }
      }
    }
  }

  // ----- histories that agree up to a point ------------------------------

  ghost predicate Agree(h: seq<Mutation>, g: seq<Mutation>, n: nat) {
    n <= |h| && n <= |g| && h[..n] == g[..n]
  }

  lemma AgreeAt(h: seq<Mutation>, g: seq<Mutation>, n: nat, k: nat)
    requires Agree(h, g, n) && k <= n
    ensures At(h, k) == At(g, k)
  {
    assert h[..k] == h[..n][..k] == g[..k];
    AtPrefix(h, g, k);
  }

  lemma AgreeChanged(h: seq<Mutation>, g: seq<Mutation>, n: nat, lo: nat, hi: nat)
    requires Agree(h, g, n) && lo <= hi <= n
    ensures Changed(h, lo, hi) == Changed(g, lo, hi)
  {
    assert h[..hi] == h[..n][..hi] == g[..hi];
    ChangedPrefix(h, g, lo, hi);
  }

  lemma AgreeLive(h: seq<Mutation>, g: seq<Mutation>, n: nat, k: nat, versions: Points)
    requires Agree(h, g, n) && k <= n && LiveAt(h, k, versions)
    ensures LiveAt(g, k, versions)
  {
    AgreeAt(h, g, n, k);
  }

  lemma AgreeChain(h: seq<Mutation>, g: seq<Mutation>, n: nat, files: map<nat, Segment>, m: Manifest)
    requires Agree(h, g, n) && m.sequence <= n && ChainInv(h, files, m)
    ensures ChainInv(g, files, m)
  {
    AgreeAt(h, g, n, m.sequence);
    var last := |m.names| - 1;
    forall i | 0 <= i < |m.names| ensures LiveAt(g, m.names[i], files[m.names[i]].points) {
      assert i < last ==> m.names[i] < m.names[last];
      AgreeLive(h, g, n, m.names[i], files[m.names[i]].points);
    }
  }

  lemma AgreeMemory(h: seq<Mutation>, g: seq<Mutation>, mem: Memory, base: nat)
    requires MemoryInv(h, mem, base) && Agree(h, g, mem.coll.sequence)
    ensures MemoryInv(g, mem, base)
  {
    var n := mem.coll.sequence;
    AgreeAt(h, g, n, n);
    AgreeAt(h, g, n, base);
    AgreeChanged(h, g, n, base, n);
    forall i | 0 <= i < |mem.indexes|
      ensures mem.indexes[i].sequence <= n && LiveAt(g, mem.indexes[i].sequence, mem.indexes[i].points)
    {
      AgreeLive(h, g, n, mem.indexes[i].sequence, mem.indexes[i].points);
    }
  }

  lemma AgreeFlush(h: seq<Mutation>, g: seq<Mutation>, manifest: Option<Manifest>, mem: Memory, flush: Flush)
    requires FlushInv(h, manifest, mem, flush) && Agree(h, g, mem.coll.sequence)
    ensures FlushInv(g, manifest, mem, flush)
  {
    var n := mem.coll.sequence;
    var seg := flush.segment;
    AgreeAt(h, g, n, seg.sequence);
    AgreeChanged(h, g, n, seg.sequence, n);
    if ManifestSequence(manifest) <= seg.sequence {
      AgreeChanged(h, g, n, ManifestSequence(manifest), seg.sequence);
    }
  }

  // ----- what reopening gives --------------------------------------------

  /** Every batch that only the log holds can be prepared again. */
  predicate LogPrepares(cfg: Config, disk: Disk, start: nat) {
    AllPrepare(cfg, disk.wal, start, ManifestSequence(disk.manifest))
  }

  lemma ReplayedAgrees(cfg: Config, h: seq<Mutation>, disk: Disk, start: nat)
    requires DiskInv(cfg, h, disk, start)
    ensures var m, g := ManifestSequence(disk.manifest), Replayed(cfg, h, disk, start);
      Agree(h, g, m) && At(g, m) == At(h, m) && ReplaysAs(cfg, g, disk.wal, start, m)
  {
    AgreeAt(h, Replayed(cfg, h, disk, start), ManifestSequence(disk.manifest), ManifestSequence(disk.manifest));
  }

  /** With the replayed history the disk is as sound as before. */
  lemma ReplayedIsSound(cfg: Config, h: seq<Mutation>, disk: Disk, start: nat)
    requires DiskInv(cfg, h, disk, start)
    ensures DiskInv(cfg, Replayed(cfg, h, disk, start), disk, start)
  {
    var g, m := Replayed(cfg, h, disk, start), ManifestSequence(disk.manifest);
    ReplayedAgrees(cfg, h, disk, start);
    if disk.manifest.Some? { AgreeChain(h, g, m, disk.files, disk.manifest.value); }
  }

  /** The segments open and hold `coll`. */
  ghost predicate ChainOpens(disk: Disk, coll: Coll) {
    match disk.manifest
    case None => coll == EMPTY
    case Some(m) =>
      && ReadableManifest(m) && LoadSegments(disk.files, m, |m.names|).Ok?
      && LoadSegments(disk.files, m, |m.names|).value.coll == coll
  }

  /**
   Opening this disk restores the history: its segments hold it up to their sequence, and the
   log holds the rest, to be prepared again. If one batch of the rest is refused then, so is
   the disk.
   */
  ghost predicate Restores(cfg: Config, disk: Disk, h: seq<Mutation>, start: nat) {
    && ManifestSequence(disk.manifest) <= |h| && ChainOpens(disk, At(h, ManifestSequence(disk.manifest)))
    && (Recover(cfg, disk).Ok? <==> LogPrepares(cfg, disk, start))
    && (Recover(cfg, disk).Ok? ==> Recover(cfg, disk).value.coll == At(Replayed(cfg, h, disk, start), |h|))
  }

  /** Recovery of a sound disk, with every later change dirty. */
  lemma RecoverRestores(cfg: Config, h: seq<Mutation>, disk: Disk, start: nat)
    requires DiskInv(cfg, h, disk, start)
    ensures Restores(cfg, disk, h, start)
    ensures Recover(cfg, disk).Ok? ==>
      var mem, g := Recover(cfg, disk).value, Replayed(cfg, h, disk, start);
      && mem.dirty == Changed(g, ManifestSequence(disk.manifest), |g|)
      && MemoryInv(g, mem, ManifestSequence(disk.manifest))
      && (mem.indexes != [] ==> disk.manifest.Some?)
  {
    ReplayedAgrees(cfg, h, disk, start);
    ReplayedIsSound(cfg, h, disk, start);
    var g := Replayed(cfg, h, disk, start);
    match disk.manifest
    case None => RecoverFromWal(cfg, g, disk, start);
    case Some(m) => RecoverFromChain(cfg, g, disk, start, m);
  }

  lemma RecoverFromWal(cfg: Config, g: seq<Mutation>, disk: Disk, start: nat)
    requires DiskInv(cfg, g, disk, start) && disk.manifest.None? && ReplaysAs(cfg, g, disk.wal, start, 0)
    ensures if LogPrepares(cfg, disk, start)
      then Recover(cfg, disk) == Ok(Memory(At(g, |g|), [], None, Changed(g, 0, |g|)))
      else Recover(cfg, disk).Err?
    ensures Covered(At(g, |g|).points, [], Changed(g, 0, |g|))
  {
    assert At(g, 0) == EMPTY;
    ReplayHistory(cfg, g, disk.wal, start, 0);
    AllChangedSinceEmpty(g);
  }

  lemma AllChangedSinceEmpty(h: seq<Mutation>)
    ensures Covered(At(h, |h|).points, [], Changed(h, 0, |h|))
  {
    forall id | id in At(h, |h|).points ensures id in Changed(h, 0, |h|) {
      if id !in Changed(h, 0, |h|) { Untouched(h, 0, |h|, id); }
    }
  }

  lemma RecoverFromChain(cfg: Config, g: seq<Mutation>, disk: Disk, start: nat, m: Manifest)
    requires DiskInv(cfg, g, disk, start) && disk.manifest == Some(m)
    requires ReplaysAs(cfg, g, disk.wal, start, m.sequence)
    ensures ChainOpens(disk, At(g, m.sequence))
    ensures Recover(cfg, disk).Ok? <==> LogPrepares(cfg, disk, start)
    ensures Recover(cfg, disk).Ok? ==>
      var mem := Recover(cfg, disk).value;
      && mem.coll == At(g, |g|)
      && mem.metadata == Some(At(g, m.sequence).points)
      && mem.dirty == Changed(g, m.sequence, |g|)
      && GraphsInv(g, mem.indexes, m.sequence)
      && Covered(mem.coll.points, mem.indexes, mem.dirty)
  {
    LoadChain(g, disk.files, m, |m.names|);
    LoadGraphs(g, disk.files, m, |m.names|);
    ReplayHistory(cfg, g, disk.wal, start, m.sequence);
    CoveredSince(g, m.sequence, LoadSegments(disk.files, m, |m.names|).value.indexes);
  }

  /** What has not changed since `n` is still covered. */
  lemma CoveredSince(g: seq<Mutation>, n: nat, indexes: seq<IndexSegment>)
    requires n <= |g| && Covered(At(g, n).points, indexes, {})
    ensures Covered(At(g, |g|).points, indexes, Changed(g, n, |g|))
  {
    forall id | id in At(g, |g|).points && id !in Changed(g, n, |g|)
      ensures InGraph(indexes, id, At(g, |g|).points[id].sequence)
    {
      Untouched(g, n, |g|, id);
    }
  }

  // ----- one lemma per step ----------------------------------------------

  lemma WriteKeeps(cfg: Config, s: System, batch: Mutation)
    requires Inv(cfg, s) && Enabled(cfg, s, Write(batch))
    ensures Inv(cfg, Do(cfg, s, Write(batch)))
  {
    var t := Do(cfg, s, Write(batch));
    var h, g := s.history, t.history;
    assert Agree(h, g, |h|);
    WalGrows(cfg, h, s.disk.wal, s.walStart, Prepare(cfg, batch).value);
    if s.disk.manifest.Some? { AgreeChain(h, g, |h|, s.disk.files, s.disk.manifest.value); }
    AgreeMemory(h, g, s.memory.value, s.base);
    AgreeFlights(h, g, s.disk.manifest, s.memory.value, s.flights);
  }

  lemma WalGrows(cfg: Config, h: seq<Mutation>, wal: seq<Frame>, start: nat, m: Mutation)
    requires WalInv(cfg, h, wal, start)
    ensures WalInv(cfg, h + [m], wal + [Frame(|h| + 1, m)], start)
  {
  }

  lemma WalShrinks(cfg: Config, h: seq<Mutation>, wal: seq<Frame>, start: nat)
    requires WalInv(cfg, h, wal, start) && start < |h|
    ensures WalInv(cfg, h[..|h| - 1], wal[..|wal| - 1], start)
  {
  }

  lemma RollbackKeeps(cfg: Config, s: System)
    requires Inv(cfg, s) && Enabled(cfg, s, Rollback)
    ensures Inv(cfg, Do(cfg, s, Rollback))
  {
    var t := Do(cfg, s, Rollback);
    var h, g := s.history, t.history;
    assert Agree(h, g, |g|);
    WalShrinks(cfg, h, s.disk.wal, s.walStart);
    if s.disk.manifest.Some? { AgreeChain(h, g, |g|, s.disk.files, s.disk.manifest.value); }
    AgreeMemory(h, g, s.memory.value, s.base);
    AgreeFlights(h, g, s.disk.manifest, s.memory.value, s.flights);
  }

  lemma AgreeFlights(
      h: seq<Mutation>, g: seq<Mutation>, manifest: Option<Manifest>, mem: Memory, flights: multiset<Flush>)
    requires Agree(h, g, mem.coll.sequence)
    requires forall flush :: flush in flights ==> FlushInv(h, manifest, mem, flush)
    ensures forall flush :: flush in flights ==> FlushInv(g, manifest, mem, flush)
  {
    forall flush | flush in flights ensures FlushInv(g, manifest, mem, flush) {
      AgreeFlush(h, g, manifest, mem, flush);
    }
  }

  /** The memory after the next batch of the history. */
  ghost function Advanced(h: seq<Mutation>, mem: Memory): Memory
    requires mem.coll.sequence < |h|
  {
    var n := mem.coll.sequence;
    mem.(coll := Apply(mem.coll, h[n], n + 1), dirty := mem.dirty + Touched(h[n]))
  }

  /** Applying the next batch in memory and marking its IDs dirty keeps the index invariant. */
  lemma AdvanceMemory(h: seq<Mutation>, mem: Memory, base: nat)
    requires MemoryInv(h, mem, base) && mem.coll.sequence < |h|
    ensures MemoryInv(h, Advanced(h, mem), base)
  {
    var n, next := mem.coll.sequence, Advanced(h, mem);
    assert next.coll == At(h, n + 1);
    assert Changed(h, base, n + 1) == Changed(h, base, n) + Touched(h[n]);
    forall id | id in next.coll.points && id !in next.dirty
      ensures InGraph(next.indexes, id, next.coll.points[id].sequence)
    {
      ApplyOn(mem.coll, h[n], n + 1, id);
    }
  }

  lemma AdvanceFlights(h: seq<Mutation>, manifest: Option<Manifest>, mem: Memory, flights: multiset<Flush>)
    requires mem.coll.sequence < |h| && forall flush :: flush in flights ==> FlushInv(h, manifest, mem, flush)
    ensures forall flush :: flush in flights ==> FlushInv(h, manifest, Advanced(h, mem), flush)
  {
    forall flush | flush in flights ensures FlushInv(h, manifest, Advanced(h, mem), flush) {
      AdvanceFlush(h, manifest, mem, flush);
    }
  }

  lemma AcknowledgeKeeps(cfg: Config, s: System)
    requires Inv(cfg, s) && Enabled(cfg, s, Acknowledge)
    ensures Inv(cfg, Do(cfg, s, Acknowledge))
  {
    var t, h := Do(cfg, s, Acknowledge), s.history;
    assert t.memory.value == Advanced(h, s.memory.value);
    AdvanceMemory(h, s.memory.value, s.base);
    AdvanceFlights(h, s.disk.manifest, s.memory.value, s.flights);
  }

  lemma AdvanceFlush(h: seq<Mutation>, manifest: Option<Manifest>, mem: Memory, flush: Flush)
    requires FlushInv(h, manifest, mem, flush) && mem.coll.sequence < |h|
    ensures FlushInv(h, manifest, Advanced(h, mem), flush)
  {
    var n, seg := mem.coll.sequence, flush.segment;
    assert Changed(h, seg.sequence, n + 1) == Changed(h, seg.sequence, n) + Touched(h[n]);
  }

  lemma SnapshotKeeps(cfg: Config, s: System)
    requires Inv(cfg, s) && Enabled(cfg, s, Snapshot)
    ensures Inv(cfg, Do(cfg, s, Snapshot))
  {
    var mem := s.memory.value;
    var flush := SnapshotOf(mem);
    var h, n, m := s.history, mem.coll.sequence, ManifestSequence(s.disk.manifest);
    ChangedSplit(h, s.base, m, n);
    if !flush.segment.full { assert Covers(flush.segment) == mem.dirty; }
    assert FlushInv(h, s.disk.manifest, mem, flush);
  }

  /** A chain does not see files it does not name. */
  lemma {:induction false} ChainFrame(
      files: map<nat, Segment>, names: seq<nat>, otherFiles: map<nat, Segment>, otherNames: seq<nat>, k: nat)
    requires k <= |names| && k <= |otherNames|
    requires forall i :: 0 <= i < k ==>
      && names[i] in files && names[i] in otherFiles
      && files[names[i]] == otherFiles[names[i]] && otherNames[i] == names[i]
    ensures ChainPoints(files, names, k) == ChainPoints(otherFiles, otherNames, k)
  {
    if k > 0 { ChainFrame(files, names, otherFiles, otherNames, k - 1); }
  }

  lemma ChainInvFrame(h: seq<Mutation>, files: map<nat, Segment>, other: map<nat, Segment>, m: Manifest)
    requires ChainInv(h, files, m)
    requires forall i :: 0 <= i < |m.names| ==> m.names[i] in other && files[m.names[i]] == other[m.names[i]]
    ensures ChainInv(h, other, m)
  {
    ChainFrame(files, m.names, other, m.names, |m.names|);
  }

  lemma NewerNameIsFresh(files: map<nat, Segment>, m: Manifest, sequence: nat)
    requires ChainShape(files, m) && m.sequence < sequence
    ensures forall i :: 0 <= i < |m.names| ==> m.names[i] < sequence
  {
    var last := |m.names| - 1;
    forall i | 0 <= i < |m.names| ensures m.names[i] < sequence {
      assert i < last ==> m.names[i] < m.names[last];
    }
  }

  /** A one-segment chain of a true full segment. */
  lemma FullChain(h: seq<Mutation>, files: map<nat, Segment>, manifest: Option<Manifest>, seg: Segment)
    requires SegmentInv(h, manifest, seg) && seg.full
    requires seg.sequence in files && files[seg.sequence] == seg
    ensures ChainInv(h, files, Manifest(seg.sequence, [seg.sequence]))
  {
    var names := [seg.sequence];
    assert ChainPoints(files, names, 1) == Overlay(ChainPoints(files, names, 0), seg);
  }

  /**
   A delta on top of the chain: everything outside the delta has not changed
   since the manifest, so the longer chain means the collection at the delta.
   */
  lemma DeltaMeaning(h: seq<Mutation>, m: Manifest, seg: Segment)
    requires SegmentInv(h, Some(m), seg) && !seg.full && m.sequence <= seg.sequence
    ensures Overlay(At(h, m.sequence).points, seg) == At(h, seg.sequence).points
  {
    var before, after := At(h, m.sequence).points, At(h, seg.sequence).points;
    var merged := Overlay(before, seg);
    forall id ensures SameOn(merged, after, id) {
      if id !in Covers(seg) { Untouched(h, m.sequence, seg.sequence, id); }
    }
    assert merged.Keys == after.Keys by {
      forall id ensures id in merged <==> id in after { assert SameOn(merged, after, id); }
    }
    forall id | id in merged ensures merged[id] == after[id] { assert SameOn(merged, after, id); }
  }

  lemma DeltaChain(h: seq<Mutation>, files: map<nat, Segment>, m: Manifest, seg: Segment)
    requires ChainInv(h, files, m) && SegmentInv(h, Some(m), seg) && !seg.full
    requires m.sequence < seg.sequence && |m.names| <= MAX_INDEX_SEGMENTS
    requires seg.sequence in files && files[seg.sequence] == seg
    ensures ChainInv(h, files, Manifest(seg.sequence, m.names + [seg.sequence]))
  {
    var names := m.names + [seg.sequence];
    NewerNameIsFresh(files, m, seg.sequence);
    ChainFrame(files, m.names, files, names, |m.names|);
    DeltaMeaning(h, m, seg);
  }

  lemma RenameKeeps(cfg: Config, s: System, flush: Flush)
    requires Inv(cfg, s) && Enabled(cfg, s, Rename(flush)) && SafeToPublish(s.disk.manifest, flush.segment)
    ensures Inv(cfg, Do(cfg, s, Rename(flush)))
  {
    var t := Do(cfg, s, Rename(flush));
    var seg := flush.segment;
    assert FlushInv(s.history, s.disk.manifest, s.memory.value, flush);
    if s.disk.manifest.Some? {
      var m := s.disk.manifest.value;
      if m.sequence < seg.sequence {
        NewerNameIsFresh(s.disk.files, m, seg.sequence);
        ChainInvFrame(s.history, s.disk.files, t.disk.files, m);
      } else {
        assert m.names == [seg.sequence];
        FullChain(s.history, t.disk.files, s.disk.manifest, seg);
      }
    }
    assert DiskInv(cfg, t.history, t.disk, t.walStart);
    assert PhaseInv(t);
  }

  /** Swapping in the mapped copies changes no visible version. */
  lemma ReplaceIsInvisible(h: seq<Mutation>, n: nat, k: nat, versions: Points)
    requires n <= |h| && LiveAt(h, k, versions)
    ensures ReplacePersisted(At(h, n), versions) == At(h, n)
  {
    var coll := At(h, n);
    forall id | id in coll.points && id in versions && versions[id].sequence == coll.points[id].sequence
      ensures versions[id] == coll.points[id]
    {
      VersionsAreUnique(h, n, k, id);
    }
    assert ReplacePersisted(coll, versions).points == coll.points;
  }

  lemma NewerManifestKeepsFlush(
      h: seq<Mutation>, older: Option<Manifest>, newer: Manifest, mem: Memory, flush: Flush)
    requires FlushInv(h, older, mem, flush) && ManifestSequence(older) <= newer.sequence
    ensures FlushInv(h, Some(newer), mem, flush)
  {
    if newer.sequence <= flush.segment.sequence {
      ChangedSplit(h, ManifestSequence(older), newer.sequence, flush.segment.sequence);
    }
  }

  lemma SwapChain(h: seq<Mutation>, files: map<nat, Segment>, previous: Option<Manifest>, seg: Segment)
    requires SegmentInv(h, previous, seg) && SafeToPublish(previous, seg)
    requires previous.Some? ==> ChainInv(h, files, previous.value) && previous.value.sequence <= seg.sequence
    requires seg.sequence in files && files[seg.sequence] == seg
    ensures ChainInv(h, files, NextManifest(previous, seg))
  {
    if seg.full {
      FullChain(h, files, previous, seg);
    } else {
      DeltaChain(h, files, previous.value, seg);
    }
  }

  lemma SwapKeeps(cfg: Config, s: System)
    requires Inv(cfg, s) && Enabled(cfg, s, Swap)
    ensures Inv(cfg, Do(cfg, s, Swap))
    ensures Do(cfg, s, Swap).memory == s.memory
  {
    var t := Do(cfg, s, Swap);
    var Renamed(flush, previous) := s.phase;
    var seg := flush.segment;
    ReplaceIsInvisible(s.history, s.memory.value.coll.sequence, seg.sequence, seg.points);
    var next := NextManifest(previous, seg);
    SwapChain(s.history, s.disk.files, previous, seg);
    NewerManifestKeepsFlush(s.history, previous, next, s.memory.value, flush);
    forall other | other in t.flights ensures FlushInv(t.history, t.disk.manifest, t.memory.value, other) {
      NewerManifestKeepsFlush(s.history, previous, next, s.memory.value, other);
    }
    assert PhaseInv(t);
  }

  /** The committed flush becomes the base of the in-memory indexes. */
  lemma CommitMemory(h: seq<Mutation>, mem: Memory, base: nat, flush: Flush, manifest: Option<Manifest>)
    requires MemoryInv(h, mem, base) && FlushInv(h, manifest, mem, flush) && base <= flush.segment.sequence
    ensures var seg := flush.segment;
      var dirty := if mem.coll.sequence == seg.sequence then {} else mem.dirty;
      MemoryInv(h, Memory(mem.coll, PushGraph(if seg.full then [] else mem.indexes, seg), Some(flush.metadata), dirty),
                seg.sequence)
  {
    var seg, n := flush.segment, mem.coll.sequence;
    var dirty := if n == seg.sequence then {} else mem.dirty;
    var indexes := PushGraph(if seg.full then [] else mem.indexes, seg);
    ChangedSplit(h, base, seg.sequence, n);
    forall id | id in mem.coll.points && id !in dirty
      ensures InGraph(indexes, id, mem.coll.points[id].sequence)
    {
      CommitCovers(h, mem, base, flush, manifest, id);
    }
  }

  lemma CommitCovers(h: seq<Mutation>, mem: Memory, base: nat, flush: Flush, manifest: Option<Manifest>, id: Id)
    requires MemoryInv(h, mem, base) && FlushInv(h, manifest, mem, flush) && base <= flush.segment.sequence
    requires id in mem.coll.points
    requires mem.coll.sequence == flush.segment.sequence || id !in mem.dirty
    ensures var seg := flush.segment;
      InGraph(PushGraph(if seg.full then [] else mem.indexes, seg), id, mem.coll.points[id].sequence)
  {
    var seg, n := flush.segment, mem.coll.sequence;
    var indexes := PushGraph(if seg.full then [] else mem.indexes, seg);
    ChangedSplit(h, base, seg.sequence, n);
    if id !in Changed(h, seg.sequence, n) { Untouched(h, seg.sequence, n, id); }
    if id in seg.points {
      VersionOrigin(h, seg.sequence, id);
      assert indexes[|indexes| - 1] == IndexSegment(seg.sequence, seg.points);
    } else {
      assert !seg.full && id !in seg.tombstones;
      assert id !in mem.dirty;
      var i :| 0 <= i < |mem.indexes|
        && id in mem.indexes[i].points && mem.coll.points[id].sequence <= mem.indexes[i].sequence;
      assert indexes[i] == mem.indexes[i];
    }
  }

  lemma CommitKeeps(cfg: Config, s: System)
    requires Inv(cfg, s) && Enabled(cfg, s, Commit)
    ensures Inv(cfg, Do(cfg, s, Commit))
  {
    var t := Do(cfg, s, Commit);
    var flush := s.phase.flush;
    CommitMemory(s.history, s.memory.value, s.base, flush, s.disk.manifest);
    forall other | other in t.flights ensures FlushInv(t.history, t.disk.manifest, t.memory.value, other) {
      assert FlushInv(s.history, s.disk.manifest, s.memory.value, other);
    }
    assert PhaseInv(t);
  }

  lemma DropKeeps(cfg: Config, s: System, flush: Flush)
    requires Inv(cfg, s) && Enabled(cfg, s, Drop(flush))
    ensures Inv(cfg, Do(cfg, s, Drop(flush)))
  {
  }

  lemma ReleaseKeeps(cfg: Config, s: System)
    requires Inv(cfg, s) && Enabled(cfg, s, Release)
    ensures Inv(cfg, Do(cfg, s, Release))
  {
  }

  lemma CrashKeeps(cfg: Config, s: System)
    requires Inv(cfg, s)
    ensures Inv(cfg, Do(cfg, s, Crash))
  {
  }

  lemma TruncateKeeps(cfg: Config, s: System)
    requires Inv(cfg, s) && Enabled(cfg, s, Truncate)
    ensures Inv(cfg, Do(cfg, s, Truncate))
  {
  }

  lemma AbortKeeps(cfg: Config, s: System)
    requires Inv(cfg, s) && Enabled(cfg, s, Abort)
    ensures Inv(cfg, Do(cfg, s, Abort))
  {
  }

  lemma RetireKeeps(cfg: Config, s: System, name: nat)
    requires Inv(cfg, s) && Enabled(cfg, s, Retire(name))
    ensures Inv(cfg, Do(cfg, s, Retire(name)))
  {
    var t := Do(cfg, s, Retire(name));
    ChainInvFrame(s.history, s.disk.files, t.disk.files, s.disk.manifest.value);
  }

  lemma ReopenKeeps(cfg: Config, s: System)
    requires Inv(cfg, s) && Enabled(cfg, s, Reopen)
    ensures Inv(cfg, Do(cfg, s, Reopen))
    ensures Up(Do(cfg, s, Reopen)) <==> LogPrepares(cfg, s.disk, s.walStart)
  {
    RecoverRestores(cfg, s.history, s.disk, s.walStart);
    ReplayedIsSound(cfg, s.history, s.disk, s.walStart);
  }

  predicate IsPublisherStep(step: Step) {
    step.Swap? || step.Truncate? || step.Abort? || step.Commit? || step.Retire? || step.Release?
  }

  lemma WriterStepKeeps(cfg: Config, s: System, step: Step)
    requires Inv(cfg, s) && Enabled(cfg, s, step)
    requires step.Write? || step.Acknowledge? || step.Rollback? || step.Snapshot? || step.Drop?
      || step.Crash? || step.Reopen?
    ensures Inv(cfg, Do(cfg, s, step))
  {
    match step
    case Write(batch) => WriteKeeps(cfg, s, batch);
    case Acknowledge => AcknowledgeKeeps(cfg, s);
    case Rollback => RollbackKeeps(cfg, s);
    case Snapshot => SnapshotKeeps(cfg, s);
    case Drop(flush) => DropKeeps(cfg, s, flush);
    case Crash => CrashKeeps(cfg, s);
    case Reopen => ReopenKeeps(cfg, s);
  }

  lemma PublisherStepKeeps(cfg: Config, s: System, step: Step)
    requires Inv(cfg, s) && Enabled(cfg, s, step) && IsPublisherStep(step)
    ensures Inv(cfg, Do(cfg, s, step))
  {
    match step
    case Swap => SwapKeeps(cfg, s);
    case Truncate => TruncateKeeps(cfg, s);
    case Abort => AbortKeeps(cfg, s);
    case Commit => CommitKeeps(cfg, s);
    case Retire(name) => RetireKeeps(cfg, s, name);
    case Release => ReleaseKeeps(cfg, s);
  }

  /** Every step of a careful run keeps the invariant. */
  lemma StepKeeps(cfg: Config, s: System, step: Step)
    requires Inv(cfg, s) && Enabled(cfg, s, step) && Careful(s, step)
    ensures Inv(cfg, Do(cfg, s, step))
  {
    if step.Rename? {
      RenameKeeps(cfg, s, step.flush);
    } else if IsPublisherStep(step) {
      PublisherStepKeeps(cfg, s, step);
    } else {
      WriterStepKeeps(cfg, s, step);
    }
  }

  // ----- whole runs ------------------------------------------------------

  lemma {:induction false} RunKeeps(cfg: Config, s: System, run: seq<Step>)
    requires Inv(cfg, s) && Legal(cfg, s, run)
    ensures Inv(cfg, Run(cfg, s, run))
    decreases |run|
  {
    if run != [] {
      StepKeeps(cfg, s, run[0]);
      RunKeeps(cfg, Do(cfg, s, run[0]), run[1..]);
    }
  }

  lemma FreshIsSound(cfg: Config)
    ensures Inv(cfg, FRESH)
  {
    assert At([], 0) == EMPTY;
  }

  /**
   At every state of every careful run, in every phase of every operation, reopening the
   directory restores the committed history: all acknowledged batches and at most one batch
   whose frame is complete but which was not acknowledged yet. Memory holds exactly the
   acknowledged ones.
   */
  lemma CrashSafe(cfg: Config, run: seq<Step>)
    requires Legal(cfg, FRESH, run)
    ensures var s := Run(cfg, FRESH, run);
      && Restores(cfg, s.disk, s.history, s.walStart)
      && s.acked <= |s.history| <= s.acked + 1
      && (Up(s) ==> s.memory.value.coll == At(s.history, s.acked))
  {
    FreshIsSound(cfg);
    RunKeeps(cfg, FRESH, run);
    var s := Run(cfg, FRESH, run);
    RecoverRestores(cfg, s.history, s.disk, s.walStart);
  }

  // ----- acknowledged batches --------------------------------------------

  /** Batch `i` will not change any more: a segment holds it, or replay gives it as it is. */
  predicate SettledIn(cfg: Config, h: seq<Mutation>, disk: Disk, start: nat, i: nat) {
    i < |h| &&
    (i < ManifestSequence(disk.manifest) || i < start || start + |disk.wal| <= i
     || Prepare(cfg, disk.wal[i - start].mutation) == Ok(h[i]))
  }

  predicate Settled(cfg: Config, s: System, i: nat) { SettledIn(cfg, s.history, s.disk, s.walStart, i) }

  /** Replay leaves a settled batch alone, and settles every other one by preparing it. */
  lemma ReplayedSettles(cfg: Config, h: seq<Mutation>, disk: Disk, start: nat, i: nat)
    requires WalInv(cfg, h, disk.wal, start) && i < |h|
    ensures var g := Replayed(cfg, h, disk, start);
      && (g[i] == h[i] || Prepare(cfg, h[i]) == Ok(g[i]))
      && (SettledIn(cfg, h, disk, start, i) ==> g[i] == h[i])
      && (LogPrepares(cfg, disk, start) ==> SettledIn(cfg, g, disk, start, i))
  {
    var g := Replayed(cfg, h, disk, start);
    if start <= i && ManifestSequence(disk.manifest) <= i {
      var logged := disk.wal[i - start].mutation;
      assert LoggedAs(cfg, logged, h[i]);
      assert g[i] == Again(cfg, logged);
    } else {
      assert g[i] == h[i];
    }
  }

  lemma MentionsIsTouched(m: Mutation, id: Id)
    ensures Mentions(m, id) <==> id in Touched(m)
  {
  }

  /** A deleted ID that was not upserted since is neither in memory nor in any reopened collection. */
  lemma DeletedNeverReturns(cfg: Config, run: seq<Step>, i: nat, id: Id)
    requires Legal(cfg, FRESH, run)
    requires var h := Run(cfg, FRESH, run).history;
      && i < |h| && h[i].Delete? && id in h[i].ids
      && forall t :: i < t < |h| && h[t].Upsert? ==> !Mentions(h[t], id)
    ensures var s := Run(cfg, FRESH, run);
      && (Up(s) && i < s.acked ==> id !in s.memory.value.coll.points)
      && (Recover(cfg, s.disk).Ok? ==> id !in Recover(cfg, s.disk).value.coll.points)
  {
    CrashSafe(cfg, run);
    FreshIsSound(cfg);
    RunKeeps(cfg, FRESH, run);
    var s := Run(cfg, FRESH, run);
    var h, g := s.history, Replayed(cfg, s.history, s.disk, s.walStart);
    if i < s.acked { DeletedStaysGone(h, i, s.acked, id); }
    forall t: nat | i <= t < |h| ensures g[t].Upsert? == h[t].Upsert? && (Mentions(g[t], id) <==> Mentions(h[t], id)) {
      ReplayedSettles(cfg, h, s.disk, s.walStart, t);
      if g[t] != h[t] { PrepareTouches(cfg, h[t]); }
      MentionsIsTouched(g[t], id);
      MentionsIsTouched(h[t], id);
    }
    assert Mentions(g[i], id);
    DeletedStaysGone(g, i, |h|, id);
  }

  lemma StepKeepsAcknowledged(cfg: Config, s: System, step: Step)
    requires Inv(cfg, s) && Enabled(cfg, s, step)
    ensures var t := Do(cfg, s, step);
      && s.acked <= t.acked && s.acked <= |t.history|
      && (!step.Reopen? ==> t.history[..s.acked] == s.history[..s.acked])
  {
  }

  /** Reopening settles every batch: it is as it was, or prepared once more. */
  lemma ReopenSettles(cfg: Config, s: System, i: nat)
    requires Inv(cfg, s) && Enabled(cfg, s, Reopen) && i < s.acked
    ensures var t := Do(cfg, s, Reopen);
      && i < t.acked <= |t.history|
      && (t.history[i] == s.history[i] || Prepare(cfg, s.history[i]) == Ok(t.history[i]))
      && (Up(t) ==> Settled(cfg, t, i))
      && (!Up(t) ==> t == s)
      && (Settled(cfg, s, i) ==> t.history[i] == s.history[i])
  {
    RecoverRestores(cfg, s.history, s.disk, s.walStart);
    ReplayedSettles(cfg, s.history, s.disk, s.walStart, i);
  }

  lemma QuietStepKeepsSettled(cfg: Config, s: System, step: Step, i: nat)
    requires s.walStart + |s.disk.wal| == |s.history| && Enabled(cfg, s, step) && !step.Reopen? && Settled(cfg, s, i)
    requires var t := Do(cfg, s, step);
      && i < |t.history| && t.history[i] == s.history[i]
      && ManifestSequence(s.disk.manifest) <= ManifestSequence(t.disk.manifest)
    ensures Settled(cfg, Do(cfg, s, step), i)
  {
  }

  lemma StepKeepsSettled(cfg: Config, s: System, step: Step, i: nat)
    requires Inv(cfg, s) && Enabled(cfg, s, step) && i < s.acked && Settled(cfg, s, i)
    ensures var t := Do(cfg, s, step);
      i < t.acked && t.history[i] == s.history[i] && Settled(cfg, t, i)
  {
    var t := Do(cfg, s, step);
    StepKeepsAcknowledged(cfg, s, step);
    if step.Reopen? {
      ReopenSettles(cfg, s, i);
    } else {
      ManifestNeverRegresses(cfg, s, step);
      assert t.history[i] == t.history[..s.acked][i] == s.history[..s.acked][i];
      QuietStepKeepsSettled(cfg, s, step, i);
    }
  }

  lemma {:induction false} SettledForever(cfg: Config, s: System, run: seq<Step>, i: nat)
    requires Inv(cfg, s) && Legal(cfg, s, run) && i < s.acked && Settled(cfg, s, i)
    ensures var t := Run(cfg, s, run);
      i < t.acked <= |t.history| && t.history[i] == s.history[i]
    decreases |run|
  {
    if run != [] {
      StepKeeps(cfg, s, run[0]);
      StepKeepsSettled(cfg, s, run[0], i);
      SettledForever(cfg, Do(cfg, s, run[0]), run[1..], i);
    }
  }

  /**
   No later step, crash or reopening takes an acknowledged batch back. It stays as it was
   acknowledged or, once and for all, becomes what preparing it again gives.
   */
  lemma {:induction false} AcknowledgedForever(cfg: Config, s: System, run: seq<Step>, i: nat)
    requires Inv(cfg, s) && Legal(cfg, s, run) && i < s.acked
    ensures var t := Run(cfg, s, run);
      && i < t.acked <= |t.history|
      && (t.history[i] == s.history[i] || Prepare(cfg, s.history[i]) == Ok(t.history[i]))
    decreases |run|
  {
    if run != [] {
      var mid := Do(cfg, s, run[0]);
      StepKeeps(cfg, s, run[0]);
      StepKeepsAcknowledged(cfg, s, run[0]);
      if run[0].Reopen? {
        ReopenSettles(cfg, s, i);
        if Up(mid) {
          SettledForever(cfg, mid, run[1..], i);
        } else {
          AcknowledgedForever(cfg, mid, run[1..], i);
        }
      } else {
        assert mid.history[i] == mid.history[..s.acked][i] == s.history[..s.acked][i];
        AcknowledgedForever(cfg, mid, run[1..], i);
      }
    }
  }

  /** The manifest chain always loads to the historical collection at the manifest's sequence. */
  lemma ManifestMeaning(cfg: Config, run: seq<Step>)
    requires Legal(cfg, FRESH, run)
    requires Run(cfg, FRESH, run).disk.manifest.Some?
    ensures var s := Run(cfg, FRESH, run);
      var m := s.disk.manifest.value;
      && ReadableManifest(m)
      && m.sequence <= s.acked <= |s.history|
      && LoadSegments(s.disk.files, m, |m.names|).Ok?
      && LoadSegments(s.disk.files, m, |m.names|).value.coll == At(s.history, m.sequence)
  {
    FreshIsSound(cfg);
    RunKeeps(cfg, FRESH, run);
    var s := Run(cfg, FRESH, run);
    LoadChain(s.history, s.disk.files, s.disk.manifest.value, |s.disk.manifest.value.names|);
  }

  /** No publication, stale or not, moves the manifest backwards. */
  lemma ManifestNeverRegresses(cfg: Config, s: System, step: Step)
    requires Inv(cfg, s) && Enabled(cfg, s, step)
    ensures ManifestSequence(s.disk.manifest) <= ManifestSequence(Do(cfg, s, step).disk.manifest)
  {
  }

  // ----- what a search sees ----------------------------------------------

  /** The test `search_with_ef` applies to a hit of graph `i`. */
  predicate AcceptsHit(mem: Memory, i: nat, id: Id) {
    && i < |mem.indexes|
    && id in mem.indexes[i].points
    && id in mem.coll.points
    && id !in mem.dirty
    && mem.coll.points[id].sequence <= mem.indexes[i].sequence
  }

  /**
   No live point is outside both the graphs and the dirty delta, no accepted
   graph hit is a stale version, and outside the dirty set the metadata index
   agrees with the live collection.
   */
  lemma SearchSeesEveryLivePoint(cfg: Config, run: seq<Step>)
    requires Legal(cfg, FRESH, run) && Up(Run(cfg, FRESH, run))
    ensures var mem := Run(cfg, FRESH, run).memory.value;
      && (forall id :: id in mem.coll.points && id !in mem.dirty ==> exists i: nat :: AcceptsHit(mem, i, id))
      && (forall i: nat, id :: AcceptsHit(mem, i, id) ==> mem.indexes[i].points[id] == mem.coll.points[id])
      && (mem.metadata.Some? ==> forall id :: id !in mem.dirty ==> SameOn(mem.metadata.value, mem.coll.points, id))
  {
    FreshIsSound(cfg);
    RunKeeps(cfg, FRESH, run);
    var s := Run(cfg, FRESH, run);
    var mem := s.memory.value;
    forall id | id in mem.coll.points && id !in mem.dirty ensures exists i: nat :: AcceptsHit(mem, i, id) {
      var i :| 0 <= i < |mem.indexes|
        && id in mem.indexes[i].points && mem.coll.points[id].sequence <= mem.indexes[i].sequence;
      assert AcceptsHit(mem, i, id);
    }
    forall i: nat, id | AcceptsHit(mem, i, id) ensures mem.indexes[i].points[id] == mem.coll.points[id] {
      GraphHitIsCurrent(s.history, mem, s.base, i, id);
    }
    if mem.metadata.Some? {
      forall id | id !in mem.dirty ensures SameOn(mem.metadata.value, mem.coll.points, id) {
        Untouched(s.history, s.base, mem.coll.sequence, id);
      }
    }
  }

  lemma GraphHitIsCurrent(h: seq<Mutation>, mem: Memory, base: nat, i: nat, id: Id)
    requires MemoryInv(h, mem, base) && AcceptsHit(mem, i, id)
    ensures mem.indexes[i].points[id] == mem.coll.points[id]
  {
    var n, k := mem.coll.sequence, mem.indexes[i].sequence;
    VersionOrigin(h, n, id);
    ChangedSplit(h, mem.coll.points[id].sequence, k, n);
    Untouched(h, k, n, id);
  }
}
