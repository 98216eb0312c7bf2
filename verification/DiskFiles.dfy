/**
 A collection directory as bytes. Opening it decodes the segment files that the
 manifest names and replays the log, and gives what the durability engine recovers
 from the segments and frames that the files were written from. Files that the
 manifest does not name may hold anything.
 */
module DiskFiles {
  import opened Base
  import opened Bytes
  import opened Collections
  import opened Durability
  import opened CrashSafety
  import Backups
  import opened Framing
  import opened WalCodec
  import opened LogRecovery
  import opened GraphCodec
  import opened SegmentCodec

  datatype Directory = Directory(wal: seq<byte>, files: map<nat, seq<byte>>, manifest: Option<Manifest>)

  /** What all files of a directory agree on. */
  datatype Store = Store(pf: Platform, cfg: Config, metric: Metric)

  // ----- reading segments ------------------------------------------------

  /** Inserting the decoded points in order. */
  function PointsOf(points: seq<StoredPoint>): Points {
    if points == [] then map[]
    else
      var last := points[|points| - 1];
      PointsOf(points[..|points| - 1])[last.id := last]
  }

  function SegmentOf(file: SegmentFile): Segment {
    Segment(file.sequence, file.full, PointsOf(file.points), set id | id in file.tombstones)
  }

  predicate DistinctPoints(points: seq<StoredPoint>) {
    forall i, j :: 0 <= i < j < |points| ==> points[i].id != points[j].id
  }

  /** One segment file: decoded, of this collection, and without a repeated point if it is full. */
  function ReadSegment(st: Store, bytes: seq<byte>): Result<Segment> {
    var file := DecodeSegment(st.pf, bytes);
    if file.Err? then Err(file.error)
    else if file.value.metric != st.metric || file.value.dimension != st.cfg.dimension then Err(CorruptStorage)
    else if file.value.full && !DistinctPoints(file.value.points) then Err(CorruptStorage)
    else Ok(SegmentOf(file.value))
  }

  type SegmentReader = seq<byte> -> Result<Segment>

  function ReaderOf(st: Store): SegmentReader { (bytes: seq<byte>) => ReadSegment(st, bytes) }

  /** The readable segments; loading a chain fails on any other name. */
  function Readable(read: SegmentReader, files: map<nat, seq<byte>>): map<nat, Segment> {
    map n | n in files && read(files[n]).Ok? :: read(files[n]).value
  }

  // ----- opening a directory ---------------------------------------------

  type Replay = Coll -> Result<Progress>

  function ReplayOf(st: Store, wal: seq<byte>): Replay {
    (coll: Coll) =>
      var r := RecoveryOf(WAL, ApplyNext(st.pf, st.cfg))((coll, {}), 0, wal);
      if r.Err? then Err(r.error) else Ok(r.value.0)
  }

  /** Loads the chain of a manifest and replays a log over it. */
  function OpenWith(manifest: Option<Manifest>, files: map<nat, Segment>, replay: Replay): Result<Memory> {
    match manifest
    case None =>
      var replayed := replay(EMPTY);
      if replayed.Err? then Err(replayed.error)
      else Ok(Memory(replayed.value.0, [], None, replayed.value.1))
    case Some(m) =>
      if !ReadableManifest(m) then Err(CorruptStorage)
      else
        var loaded := LoadSegments(files, m, |m.names|);
        if loaded.Err? then Err(loaded.error)
        else
          var replayed := replay(loaded.value.coll);
          if replayed.Err? then Err(replayed.error)
          else Ok(Memory(replayed.value.0, loaded.value.indexes, Some(loaded.value.coll.points), replayed.value.1))
  }

  /** `open`. */
  function OpenFiles(st: Store, dir: Directory): Result<Memory> {
    OpenWith(dir.manifest, Readable(ReaderOf(st), dir.files), ReplayOf(st, dir.wal))
  }

  // ----- what the files were written from --------------------------------

  /** The points of a segment, listed by `ids`. */
  function Listed(points: Points, ids: seq<Id>): seq<StoredPoint>
    requires forall id :: id in ids ==> id in points
  {
    seq(|ids|, i requires 0 <= i < |ids| => points[ids[i]])
  }

  /** Reading back a list of points gives the points, in whatever order they were listed. */
  lemma {:induction false} ListedPoints(points: Points, ids: seq<Id>, n: nat)
    requires forall id :: id in ids ==> id in points
    requires (forall id :: id in points ==> points[id].id == id) && n <= |ids|
    ensures var read := PointsOf(Listed(points, ids)[..n]);
      && (forall id :: id in read <==> id in ids[..n])
      && (forall id :: id in read ==> read[id] == points[id])
  {
    if n > 0 {
      ListedPoints(points, ids, n - 1);
      assert Listed(points, ids)[..n][..n - 1] == Listed(points, ids)[..n - 1];
      assert ids[..n] == ids[..n - 1] + [ids[n - 1]];
    }
  }

  /** A segment file written from a segment reads back as that segment. */
  lemma ListedSegment(seg: Segment, ids: seq<Id>, file: SegmentFile)
    requires forall id :: id in ids <==> id in seg.points
    requires forall id :: id in seg.points ==> seg.points[id].id == id
    requires file.sequence == seg.sequence && file.full == seg.full && file.points == Listed(seg.points, ids)
    requires forall id :: id in file.tombstones <==> id in seg.tombstones
    ensures SegmentOf(file) == seg
  {
    ListedPoints(seg.points, ids, |ids|);
    assert Listed(seg.points, ids)[..|ids|] == Listed(seg.points, ids) && ids[..|ids|] == ids;
  }

  /** `bytes` is the file of `seg`, within the limits that publishing checks by decoding it. */
  ghost predicate IsFileOf(st: Store, bytes: seq<byte>, seg: Segment, file: SegmentFile) {
    && SegmentWritable(st.pf, file) && SegmentWithin(st.pf, file)
    && file.metric == st.metric && file.dimension == st.cfg.dimension && DistinctPoints(file.points)
    && SegmentOf(file) == seg && bytes == EncodeSegment(st.pf, file)
  }

  lemma SegmentReads(st: Store, bytes: seq<byte>, seg: Segment, file: SegmentFile)
    requires IsFileOf(st, bytes, seg, file)
    ensures ReadSegment(st, bytes) == Ok(seg)
  {
    SegmentRoundTripIff(st.pf, file);
  }

  /** The segment files that the manifest names were written from those of `disk`; others are arbitrary. */
  ghost predicate Stores(st: Store, dir: Directory, disk: Disk, from: map<nat, SegmentFile>) {
    dir.manifest == disk.manifest && (dir.manifest.Some? ==> NamedStored(st, dir, disk, from, dir.manifest.value.names))
  }

  ghost predicate NamedStored(
      st: Store, dir: Directory, disk: Disk, from: map<nat, SegmentFile>, names: seq<nat>)
  {
    forall i {:trigger names[i]} :: 0 <= i < |names| ==>
      && names[i] in dir.files && names[i] in disk.files && names[i] in from
      && IsFileOf(st, dir.files[names[i]], disk.files[names[i]], from[names[i]])
  }

  ghost predicate ReadsAs(
      read: SegmentReader, files: map<nat, seq<byte>>, segments: map<nat, Segment>, names: seq<nat>)
  {
    forall i {:trigger names[i]} :: 0 <= i < |names| ==>
      names[i] in files && names[i] in segments && read(files[names[i]]) == Ok(segments[names[i]])
  }

  lemma NamedRead(read: SegmentReader, files: map<nat, seq<byte>>, segments: map<nat, Segment>, m: Manifest)
    requires ReadsAs(read, files, segments, m.names)
    ensures LoadSegments(Readable(read, files), m, |m.names|) == LoadSegments(segments, m, |m.names|)
  {
    Backups.LoadsTheSame(m, Readable(read, files), segments, |m.names|);
  }

  /** Opening reads what the engine recovers, whatever the other files hold. */
  lemma OpensStored(st: Store, dir: Directory, disk: Disk, from: map<nat, SegmentFile>, replay: Replay)
    requires Stores(st, dir, disk, from)
    ensures OpenWith(dir.manifest, Readable(ReaderOf(st), dir.files), replay)
      == OpenWith(disk.manifest, disk.files, replay)
  {
    if dir.manifest.Some? {
      StoredReads(st, dir, disk, from, dir.manifest.value.names);
      OpensNamed(ReaderOf(st), dir.files, disk.files, dir.manifest.value, replay);
    }
  }

  lemma StoredReads(st: Store, dir: Directory, disk: Disk, from: map<nat, SegmentFile>, names: seq<nat>)
    requires NamedStored(st, dir, disk, from, names)
    ensures ReadsAs(ReaderOf(st), dir.files, disk.files, names)
  {
    forall i | 0 <= i < |names|
      ensures names[i] in dir.files && names[i] in disk.files
      ensures ReaderOf(st)(dir.files[names[i]]) == Ok(disk.files[names[i]])
    {
      SegmentReads(st, dir.files[names[i]], disk.files[names[i]], from[names[i]]);
    }
  }

  lemma OpensNamed(
      read: SegmentReader, files: map<nat, seq<byte>>, segments: map<nat, Segment>, m: Manifest, replay: Replay)
    requires ReadsAs(read, files, segments, m.names)
    ensures OpenWith(Some(m), Readable(read, files), replay) == OpenWith(Some(m), segments, replay)
  {
    NamedRead(read, files, segments, m);
  }

  // ----- opening restores the history ------------------------------------

  /** What opening finds in a sound directory: the replayed history, if its log can be replayed. */
  ghost predicate Finds(
      cfg: Config, h: seq<Mutation>, disk: Disk, start: nat, readable: bool, found: Result<Memory>)
  {
    && (found.Ok? <==> readable && LogPrepares(cfg, disk, start))
    && (found.Ok? ==>
          found == Durability.Recover(cfg, disk) && found.value.coll == At(Replayed(cfg, h, disk, start), |h|))
  }

  /** A sound disk opens by whatever replays its log; if that fails, so does opening. */
  lemma SoundOpens(cfg: Config, h: seq<Mutation>, disk: Disk, start: nat, replay: Replay, readable: bool)
    requires DiskInv(cfg, h, disk, start)
    requires ReplaysLog(cfg, At(h, ManifestSequence(disk.manifest)), disk.wal, replay, readable)
    ensures Finds(cfg, h, disk, start, readable, OpenWith(disk.manifest, disk.files, replay))
  {
    RecoverRestores(cfg, h, disk, start);
    match disk.manifest
    case None => assert At(h, 0) == EMPTY;
    case Some(m) => LoadChain(h, disk.files, m, |m.names|);
  }

  /** Replaying the bytes of a log, followed by a piece of a frame. */
  lemma BytesReplayIff(st: Store, base: Coll, wal: seq<Frame>, first: nat, p: Payload, n: nat)
    requires LogWritable(st.pf, st.cfg, wal, first) && first <= base.sequence + 1
    requires |p| < U32_LIMIT && n < |EncodeFrame(WAL, p)|
    ensures var bytes := LogBytes(WAL, st.pf, st.cfg, wal, first) + EncodeFrame(WAL, p)[..n];
      if LogWithin(WAL, st.pf, st.cfg, base.sequence, wal) && !RefusesTail(WAL, p, n)
      then ReplayOf(st, bytes)(base) == ReplayWal(st.cfg, base, wal)
      else ReplayOf(st, bytes)(base).Err?
  {
    TornLogReplaysIff(WAL, st.pf, st.cfg, base, wal, first, p, n);
  }

  /** The reader accepts every frame of the log, and the piece left behind it. */
  ghost predicate LogReads(st: Store, disk: Disk, p: Payload, n: nat) {
    LogWithin(WAL, st.pf, st.cfg, ManifestSequence(disk.manifest), disk.wal) && !RefusesTail(WAL, p, n)
  }

  /** `replay` gives what replaying the log gives, if the log is readable. */
  ghost predicate ReplaysLog(cfg: Config, base: Coll, wal: seq<Frame>, replay: Replay, readable: bool) {
    if readable then replay(base) == ReplayWal(cfg, base, wal) else replay(base).Err?
  }

  lemma StoredOpens(
      st: Store, h: seq<Mutation>, disk: Disk, start: nat, dir: Directory, from: map<nat, SegmentFile>,
      replay: Replay, readable: bool)
    requires DiskInv(st.cfg, h, disk, start) && Stores(st, dir, disk, from)
    requires ReplaysLog(st.cfg, At(h, ManifestSequence(disk.manifest)), disk.wal, replay, readable)
    ensures Finds(st.cfg, h, disk, start, readable, OpenWith(dir.manifest, Readable(ReaderOf(st), dir.files), replay))
  {
    OpensStored(st, dir, disk, from, replay);
    SoundOpens(st.cfg, h, disk, start, replay, readable);
  }

  lemma BytesReplay(st: Store, base: Coll, disk: Disk, first: nat, bytes: seq<byte>, p: Payload, n: nat)
    requires LogWritable(st.pf, st.cfg, disk.wal, first) && first <= base.sequence + 1
    requires |p| < U32_LIMIT && n < |EncodeFrame(WAL, p)| && base.sequence == ManifestSequence(disk.manifest)
    requires bytes == LogBytes(WAL, st.pf, st.cfg, disk.wal, first) + EncodeFrame(WAL, p)[..n]
    ensures ReplaysLog(st.cfg, base, disk.wal, ReplayOf(st, bytes), LogReads(st, disk, p, n))
  {
    BytesReplayIff(st, base, disk.wal, first, p, n);
  }

  lemma StartIsCovered(cfg: Config, h: seq<Mutation>, disk: Disk, start: nat)
    requires DiskInv(cfg, h, disk, start)
    ensures start <= ManifestSequence(disk.manifest) <= |h|
  {
  }

  /**
   A sound directory, after a crash that may have left `n` bytes of a frame behind the log, opens if
   and only if every frame, and every batch that only the log holds, is within the limits of the
   reader, no oversized length is left in the piece, and these batches can be prepared again. It
   opens to what the engine recovers: the whole history.
   */
  lemma OpenRestoresIff(
      st: Store, h: seq<Mutation>, disk: Disk, start: nat, dir: Directory, from: map<nat, SegmentFile>,
      p: Payload, n: nat)
    requires DiskInv(st.cfg, h, disk, start) && Stores(st, dir, disk, from)
    requires LogWritable(st.pf, st.cfg, disk.wal, start + 1) && |p| < U32_LIMIT && n < |EncodeFrame(WAL, p)|
    requires dir.wal == LogBytes(WAL, st.pf, st.cfg, disk.wal, start + 1) + EncodeFrame(WAL, p)[..n]
    ensures Finds(st.cfg, h, disk, start, LogReads(st, disk, p, n), OpenFiles(st, dir))
  {
    StartIsCovered(st.cfg, h, disk, start);
    BytesReplay(st, At(h, ManifestSequence(disk.manifest)), disk, start + 1, dir.wal, p, n);
    StoredOpens(st, h, disk, start, dir, from, ReplayOf(st, dir.wal), LogReads(st, disk, p, n));
  }

  // ----- files that cannot be read ---------------------------------------

  predicate IsNamed(manifest: Option<Manifest>, n: nat) { manifest.Some? && n in manifest.value.names }

  /** A file that the manifest does not name is never read. */
  lemma UnnamedFileIsIgnored(st: Store, dir: Directory, n: nat, bytes: seq<byte>)
    requires !IsNamed(dir.manifest, n)
    ensures OpenFiles(st, dir.(files := dir.files[n := bytes])) == OpenFiles(st, dir)
  {
    if dir.manifest.Some? && ReadableManifest(dir.manifest.value) {
      var m, read := dir.manifest.value, ReaderOf(st);
      UnnamedLoadsTheSame(read, dir.files, m, n, bytes, |m.names|);
    }
  }

  lemma {:induction false} UnnamedLoadsTheSame(
      read: SegmentReader, files: map<nat, seq<byte>>, m: Manifest, n: nat, bytes: seq<byte>, k: nat)
    requires k <= |m.names| && n !in m.names
    ensures LoadSegments(Readable(read, files[n := bytes]), m, k) == LoadSegments(Readable(read, files), m, k)
  {
    if k > 0 {
      UnnamedLoadsTheSame(read, files, m, n, bytes, k - 1);
      assert m.names[k - 1] != n;
    }
  }

  /**
   Bytes that do not decode, put under any name into a directory that opens, leave it as it was if
   and only if the manifest does not name them; otherwise it no longer opens.
   */
  lemma UndecodableFileIsHarmlessIff(st: Store, dir: Directory, n: nat, bytes: seq<byte>)
    requires OpenFiles(st, dir).Ok? && ReadSegment(st, bytes).Err?
    ensures var found := OpenFiles(st, dir.(files := dir.files[n := bytes]));
      if IsNamed(dir.manifest, n) then found.Err? else found == OpenFiles(st, dir)
  {
    if IsNamed(dir.manifest, n) {
      var m, files := dir.manifest.value, Readable(ReaderOf(st), dir.files[n := bytes]);
      var i :| 0 <= i < |m.names| && m.names[i] == n;
      assert n !in files;
      Backups.MissingFails(files, m, i, |m.names|);
    } else {
      UnnamedFileIsIgnored(st, dir, n, bytes);
    }
  }

  /**
   A publication that is newer than the manifest and moves into place a segment that
   `publish_flush` then cannot decode, whatever its bytes, is harmless: the directory opens as before.
   */
  lemma FailedPublishIsHarmless(
      st: Store, s: System, flush: Flush, dir: Directory, bytes: seq<byte>)
    requires Inv(st.cfg, s) && Enabled(st.cfg, s, Rename(flush)) && dir.manifest == s.disk.manifest
    requires s.disk.manifest.None? || s.disk.manifest.value.sequence < flush.segment.sequence
    ensures OpenFiles(st, dir.(files := dir.files[flush.segment.sequence := bytes])) == OpenFiles(st, dir)
  {
    if s.disk.manifest.Some? { NewerNameIsFresh(s.disk.files, s.disk.manifest.value, flush.segment.sequence); }
    UnnamedFileIsIgnored(st, dir, flush.segment.sequence, bytes);
  }
}
