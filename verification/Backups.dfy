/**
 A backup copies the log, the manifest and only the segments it names. Opening
 the copy gives what opening the original gives. `backup_to` flushes first, without
 the guard of `PersistentCollection::flush`, and that flush may destroy both.
 */
module Backups {
  import opened Base
  import opened Collections
  import opened Durability
  import opened CrashSafety
  import opened PublishSafety
  import opened ExactReplays

  ghost predicate SameNamed(names: seq<nat>, k: nat, a: map<nat, Segment>, b: map<nat, Segment>) {
    k <= |names| && forall i :: 0 <= i < k ==> names[i] in a && names[i] in b && a[names[i]] == b[names[i]]
  }

  lemma {:induction false} LoadsTheSame(m: Manifest, a: map<nat, Segment>, b: map<nat, Segment>, k: nat)
    requires SameNamed(m.names, k, a, b)
    ensures LoadSegments(a, m, k) == LoadSegments(b, m, k)
  {
    if k > 0 { LoadsTheSame(m, a, b, k - 1); }
  }

  // ----- copying ---------------------------------------------------------

  function Named(files: map<nat, Segment>, names: seq<nat>): map<nat, Segment> {
    map n | n in names && n in files :: files[n]
  }

  predicate AllPresent(files: map<nat, Segment>, names: seq<nat>) {
    forall i :: 0 <= i < |names| ==> names[i] in files
  }

  /** What a copy holds, if it can be made: the log, the manifest and the segments named by it. */
  function CopyOf(disk: Disk): Result<Disk> {
    match disk.manifest
    case None => Ok(Disk(disk.wal, map[], None))
    case Some(m) =>
      if !ReadableManifest(m) || !AllPresent(disk.files, m.names) then Err(CorruptStorage)
      else Ok(Disk(disk.wal, Named(disk.files, m.names), Some(m)))
  }

  /** `copy_collection_directory`: it fails on an unreadable manifest or a missing segment. */
  method CopyCollectionDirectory(disk: Disk) returns (r: Result<Disk>)
    ensures r == CopyOf(disk)
  {
    if disk.manifest.None? {
      return Ok(Disk(disk.wal, map[], None));
    }
    var m := disk.manifest.value;
    if !ReadableManifest(m) {
      return Err(CorruptStorage);
    }
    var files: map<nat, Segment> := map[];
    for k := 0 to |m.names|
      invariant AllPresent(disk.files, m.names[..k]) && files == Named(disk.files, m.names[..k])
    {
      if m.names[k] !in disk.files {
        return Err(CorruptStorage);
      }
      NamedNext(disk.files, m.names, k);
      files := files[m.names[k] := disk.files[m.names[k]]];
    }
    assert m.names[..|m.names|] == m.names;
    r := Ok(Disk(disk.wal, files, disk.manifest));
  }

  lemma NamedNext(files: map<nat, Segment>, names: seq<nat>, k: nat)
    requires k < |names| && names[k] in files
    ensures Named(files, names[..k + 1]) == Named(files, names[..k])[names[k] := files[names[k]]]
  {
    assert names[..k + 1] == names[..k] + [names[k]];
  }

  /** A copy opens exactly as the original does; where none can be made, the original does not open. */
  lemma CopyOpensAlike(cfg: Config, disk: Disk)
    ensures CopyOf(disk).Ok? ==> Recover(cfg, CopyOf(disk).value) == Recover(cfg, disk)
    ensures CopyOf(disk).Ok? ==> forall coll :: ChainOpens(CopyOf(disk).value, coll) <==> ChainOpens(disk, coll)
    ensures CopyOf(disk).Err? ==> Recover(cfg, disk).Err?
    ensures CopyOf(disk).Err? ==> forall coll :: !ChainOpens(disk, coll)
  {
    if disk.manifest.Some? {
      var m := disk.manifest.value;
      if CopyOf(disk).Ok? {
        LoadsTheSame(m, disk.files, CopyOf(disk).value.files, |m.names|);
      } else if ReadableManifest(m) {
        var i :| 0 <= i < |m.names| && m.names[i] !in disk.files;
        MissingFails(disk.files, m, i, |m.names|);
      }
    }
  }

  lemma {:induction false} MissingFails(files: map<nat, Segment>, m: Manifest, i: nat, k: nat)
    requires i < k <= |m.names| && m.names[i] !in files
    ensures LoadSegments(files, m, k).Err?
  {
    if i < k - 1 { MissingFails(files, m, i, k - 1); }
  }

  /**
   A copy made between the operations of any careful run restores the history as the original
   does, and holds the live collection itself if replaying the log changes nothing.
   */
  lemma BackupIsCurrent(cfg: Config, run: seq<Step>)
    requires Legal(cfg, FRESH, run)
    requires Up(Run(cfg, FRESH, run)) && Run(cfg, FRESH, run).phase.Idle?
    ensures var s := Run(cfg, FRESH, run);
      && CopyOf(s.disk).Ok? && Restores(cfg, CopyOf(s.disk).value, s.history, s.walStart)
      && s.memory.value.coll == At(s.history, |s.history|)
      && (LogStable(cfg, s.disk, s.walStart) ==> RestoresExactly(cfg, CopyOf(s.disk).value, s.history))
  {
    var s := Run(cfg, FRESH, run);
    FreshIsSound(cfg);
    RunKeeps(cfg, FRESH, run);
    CopyRestores(cfg, s.history, s.disk, s.walStart);
  }

  lemma CopyRestores(cfg: Config, h: seq<Mutation>, disk: Disk, start: nat)
    requires DiskInv(cfg, h, disk, start)
    ensures CopyOf(disk).Ok? && Restores(cfg, CopyOf(disk).value, h, start)
    ensures LogStable(cfg, disk, start) ==> RestoresExactly(cfg, CopyOf(disk).value, h)
  {
    RecoverRestores(cfg, h, disk, start);
    CopyOpensAlike(cfg, disk);
    assert ChainOpens(disk, At(h, ManifestSequence(disk.manifest)));
    var copy := CopyOf(disk).value;
    assert copy.wal == disk.wal && copy.manifest == disk.manifest;
    assert Replayed(cfg, h, copy, start) == Replayed(cfg, h, disk, start);
    if LogStable(cfg, disk, start) { StableRestores(cfg, h, disk, start); }
  }

  // ----- the whole call --------------------------------------------------

  /**
   Whether the flush that opens `backup_to` may run to its end: it replaces the chain, or
   there is none, or it adds something newer to a chain with room.
   */
  predicate BackupSafe(s: System)
    requires Up(s)
  {
    var mem, m := s.memory.value, s.disk.manifest;
    || Compacts(mem) || m.None?
    || (m.value.sequence < mem.coll.sequence && |m.value.names| <= MAX_INDEX_SEGMENTS)
  }

  /** A manifest with one full segment opens to its points. */
  lemma OneSegmentOpens(cfg: Config, files: map<nat, Segment>, coll: Coll)
    requires coll.sequence in files && files[coll.sequence] == Segment(coll.sequence, true, coll.points, {})
    requires forall id :: id in coll.points ==> coll.points[id].sequence <= coll.sequence
    ensures var found := Recover(cfg, Disk([], files, Some(Manifest(coll.sequence, [coll.sequence]))));
      found.Ok? && found.value.coll == coll
  {
    var m := Manifest(coll.sequence, [coll.sequence]);
    assert LoadSegments(files, m, 0) == Ok(Loaded(EMPTY, []));
    assert LoadSegments(files, m, 1).Ok? && LoadSegments(files, m, 1).value.coll == coll;
  }

  lemma FullFlushOpens(cfg: Config, s: System)
    requires Inv(cfg, s) && Up(s) && s.phase.Idle? && Compacts(s.memory.value)
    ensures Recover(cfg, Flushed(s).disk).Ok? && Recover(cfg, Flushed(s).disk).value.coll == s.memory.value.coll
  {
    var disk, coll := Flushed(s).disk, s.memory.value.coll;
    forall id | id in coll.points ensures coll.points[id].sequence <= coll.sequence {
      VersionOrigin(s.history, coll.sequence, id);
    }
    OneSegmentOpens(cfg, disk.files, coll);
    assert disk.manifest.value.names == [coll.sequence];
  }

  /**
   `backup_to` on a quiet collection: the copy holds the collection if and only if the state
   was safe to begin with. Otherwise the call fails, and the flush it made leaves a directory
   that no longer opens.
   */
  lemma BackupWorksIff(cfg: Config, s: System)
    requires Inv(cfg, s) && Up(s) && s.phase.Idle?
    ensures var disk := Flushed(s).disk;
      if BackupSafe(s) then
        && CopyOf(disk).Ok? && Recover(cfg, CopyOf(disk).value).Ok?
        && Recover(cfg, CopyOf(disk).value).value.coll == s.memory.value.coll
        && Recover(cfg, disk) == Recover(cfg, CopyOf(disk).value)
      else CopyOf(disk).Err? && Recover(cfg, disk).Err?
  {
    CopyOpensAlike(cfg, Flushed(s).disk);
    if Compacts(s.memory.value) {
      FullFlushOpens(cfg, s);
    } else if BackupSafe(s) {
      SafeFlushOpens(cfg, s);
    } else {
      UnsafeFlushIsUnreadable(cfg, s);
    }
  }

  lemma SafeFlushOpens(cfg: Config, s: System)
    requires Inv(cfg, s) && Up(s) && s.phase.Idle?
    requires SafeToPublish(s.disk.manifest, SnapshotOf(s.memory.value).segment)
    ensures Inv(cfg, Flushed(s))
    ensures Recover(cfg, Flushed(s).disk).Ok? && Recover(cfg, Flushed(s).disk).value.coll == s.memory.value.coll
  {
    FlushRunWorks(cfg, s);
    RunKeeps(cfg, s, FlushRun(SnapshotOf(s.memory.value)));
    var t := Flushed(s);
    StableRestores(cfg, t.history, t.disk, t.walStart);
  }

  lemma UnsafeFlushIsUnreadable(cfg: Config, s: System)
    requires Inv(cfg, s) && Up(s) && s.phase.Idle? && !BackupSafe(s)
    ensures !ReadableManifest(Flushed(s).disk.manifest.value)
  {
    var m, next := s.disk.manifest.value, Flushed(s).disk.manifest.value;
    assert ChainShape(s.disk.files, m);
    if |m.names| <= MAX_INDEX_SEGMENTS {
      assert next.names[|m.names| - 1] == next.names[|m.names|];
    }
  }

  /** A second backup with no write in between works if and only if its flush compacts; otherwise it destroys. */
  lemma SecondBackupWorksIff(cfg: Config, s: System)
    requires Inv(cfg, s) && Up(s) && s.phase.Idle?
    requires SafeToPublish(s.disk.manifest, SnapshotOf(s.memory.value).segment)
    ensures var t := Flushed(s);
      && Inv(cfg, t) && (BackupSafe(t) <==> Compacts(t.memory.value))
      && (Compacts(t.memory.value) ==> CopyOf(Flushed(t).disk).Ok?)
      && (!Compacts(t.memory.value) ==> Recover(cfg, Flushed(t).disk).Err?)
  {
    SafeFlushOpens(cfg, s);
    BackupWorksIff(cfg, Flushed(s));
  }
}
