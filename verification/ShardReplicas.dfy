/**
 One replica of a shard over a committed log: journal appends, snapshot
 builds, snapshot installs in two halves, off-lock index refreshes, crashes and
 reopenings, interleaved in any order. The replicated state is always the fold
 of the log, and the indexes always agree with it outside the dirty IDs.
 */
module ShardReplicas {
  import opened Base
  import opened Collections
  import opened FilteredSearch
  import opened ShardMachine

  datatype Disk = Disk(snapshot: Option<Core>, journal: seq<AppliedRecord>)

  /** `indexed` holds the points both indexes were built from. */
  datatype Memory = Memory(core: Core, indexed: Option<Points>, dirty: set<Id>)

  // ----- reopening -------------------------------------------------------

  predicate Covered(core: Core, record: AppliedRecord) {
    core.lastApplied.Some? && record.logId.index <= core.lastApplied.value.index
  }

  function ReplayJournal(cfg: Config, core: Core, journal: seq<AppliedRecord>): Result<(Core, set<Id>)>
    decreases |journal|
  {
    if journal == [] then Ok((core, {}))
    else
      var before := ReplayJournal(cfg, core, journal[..|journal| - 1]);
      if before.Err? then before
      else
        var record := journal[|journal| - 1];
        if Covered(before.value.0, record) then before
        else ReplayRecord(cfg, before.value.0, before.value.1, record)
  }

  /** `DurableShardStateMachine::open`. */
  function Recover(cfg: Config, disk: Disk): Result<Memory> {
    var start := if disk.snapshot.Some? then disk.snapshot.value else START;
    var replayed := ReplayJournal(cfg, start, disk.journal);
    if replayed.Err? then Err(replayed.error)
    else Ok(Memory(replayed.value.0, if disk.snapshot.Some? then Some(start.coll.points) else None, replayed.value.1))
  }

  // ----- the system ------------------------------------------------------

  /** A rebuild in progress: the points it was given and their sequence. */
  datatype Rebuild = Rebuild(sequence: nat, points: Points)

  /**
   `installing` is the snapshot whose file was written but which has not
   replaced the running state yet; `position` counts the applied entries (of a
   stopped replica: the recoverable ones) and `saved` those of the snapshot file. `journaled` is set between a
   journal append and its in-memory application.
   */
  datatype System = System(
    disk: Disk, memory: Option<Memory>, journaled: bool, rebuild: Option<Rebuild>, installing: Option<nat>,
    position: nat, saved: nat)

  const FRESH := System(Disk(None, []), Some(Memory(START, None, {})), false, None, None, 0, 0)

  datatype Step =
    | Journal              // append_record for the next committed entry
    | Undo                 // the append failed and was cut off
    | ApplyNext            // replay_record_inner
    | BuildSnapshot        // under the lock: snapshot file, fresh indexes
    | InstallFile(at: nat) // install_snapshot before it takes the lock
    | InstallState         // the rest of install_snapshot, under the lock
    | BeginRebuild         // refresh_index_if_needed: copy the points
    | EndRebuild           // publish the indexes if the sequence is unchanged
    | Crash
    | Reopen

  predicate Enabled(log: seq<Entry>, s: System, step: Step) {
    match step
    case Journal => s.memory.Some? && !s.journaled && s.position < |log|
    case Undo => s.memory.Some? && s.journaled && s.disk.journal != []
    case ApplyNext => s.memory.Some? && s.journaled && s.position < |log|
    case BuildSnapshot => s.memory.Some? && !s.journaled
    case InstallFile(at) => s.memory.Some? && s.installing.None? && s.saved <= at <= |log|
    case InstallState => s.memory.Some? && !s.journaled && s.installing.Some? && s.installing.value <= |log|
    case BeginRebuild => s.memory.Some? && !s.journaled && s.rebuild.None?
    case EndRebuild => s.memory.Some? && !s.journaled && s.rebuild.Some?
    case Crash => true
    case Reopen => s.memory.None?
  }

  /** Where recovery ends: at the last journaled entry, or at the snapshot if that is further. */
  function DurableEnd(s: System): nat {
    var end := s.position + (if s.journaled then 1 else 0);
    if end < s.saved then s.saved else end
  }

  function Do(cfg: Config, log: seq<Entry>, s: System, step: Step): System
    requires Enabled(log, s, step)
  {
    match step
    case Journal =>
      var record := RecordOf(cfg, s.memory.value.core, log[s.position]);
      s.(disk := s.disk.(journal := s.disk.journal + [record]), journaled := true)
    case Undo => s.(disk := s.disk.(journal := s.disk.journal[..|s.disk.journal| - 1]), journaled := false)
    case ApplyNext =>
      var mem := s.memory.value;
      match ReplayRecord(cfg, mem.core, mem.dirty, RecordOf(cfg, mem.core, log[s.position])) {
        case Err(_) => s
        case Ok(next) =>
          s.(memory := Some(mem.(core := next.0, dirty := next.1)), journaled := false, position := s.position + 1)
      }
    case BuildSnapshot =>
      var mem := s.memory.value;
      s.(disk := s.disk.(snapshot := Some(mem.core)), saved := s.position,
         memory := Some(mem.(indexed := Some(mem.core.coll.points), dirty := {})))
    case InstallFile(at) =>
      s.(disk := s.disk.(snapshot := Some(StateAt(cfg, log, at))), saved := at, installing := Some(at))
    case InstallState =>
      var core := StateAt(cfg, log, s.installing.value);
      s.(disk := s.disk.(journal := []), memory := Some(Memory(core, Some(core.coll.points), {})),
         position := s.installing.value, installing := None)
    case BeginRebuild =>
      var coll := s.memory.value.core.coll;
      s.(rebuild := Some(Rebuild(coll.sequence, coll.points)))
    case EndRebuild =>
      var mem := s.memory.value;
      if mem.core.coll.sequence == s.rebuild.value.sequence
      then s.(memory := Some(mem.(indexed := Some(s.rebuild.value.points), dirty := {})), rebuild := None)
      else s.(rebuild := None)
    case Crash =>
      s.(memory := None, journaled := false, rebuild := None, installing := None, position := DurableEnd(s))
    case Reopen =>
      match Recover(cfg, s.disk) {
        case Err(_) => s
        case Ok(mem) =>
          s.(memory := Some(mem),
             position := if mem.core.lastApplied.None? then 0 else mem.core.lastApplied.value.index + 1)
      }
  }

  /** An install takes over only while its own snapshot file is the current one; the code does not check that. */
  predicate Careful(s: System, step: Step) {
    step.InstallState? ==> s.installing == Some(s.saved)
  }

  predicate Legal(cfg: Config, log: seq<Entry>, s: System, run: seq<Step>)
    decreases |run|
  {
    run == [] ||
    (Enabled(log, s, run[0]) && Careful(s, run[0]) && Legal(cfg, log, Do(cfg, log, s, run[0]), run[1..]))
  }

  function Run(cfg: Config, log: seq<Entry>, s: System, run: seq<Step>): System
    requires Legal(cfg, log, s, run)
    decreases |run|
  {
    if run == [] then s else Run(cfg, log, Do(cfg, log, s, run[0]), run[1..])
  }

  // ----- the invariant ---------------------------------------------------

  /** The record the log gives position `i`. */
  function LogRecord(cfg: Config, log: seq<Entry>, i: nat): AppliedRecord
    requires i < |log|
  {
    RecordOf(cfg, StateAt(cfg, log, i), log[i])
  }

  /**
   From the snapshot on, the journal holds consecutive records up to `end`;
   whatever precedes them is covered by the snapshot. `skip` counts those.
   */
  ghost predicate JournalInv(
      cfg: Config, log: seq<Entry>, journal: seq<AppliedRecord>, saved: nat, end: nat, skip: nat)
  {
    && saved <= end <= |log| && skip <= |journal|
    && (forall i :: 0 <= i < skip ==> journal[i].logId.index < saved)
    && |journal| - skip == end - saved
    && (forall i {:trigger journal[i]} :: skip <= i < |journal| ==> journal[i] == LogRecord(cfg, log, saved + i - skip))
  }

  ghost predicate JournalEnds(cfg: Config, log: seq<Entry>, journal: seq<AppliedRecord>, saved: nat, end: nat) {
    exists skip: nat :: JournalInv(cfg, log, journal, saved, end, skip)
  }

  ghost predicate DiskInv(cfg: Config, log: seq<Entry>, s: System) {
    && s.saved <= |log|
    && (s.disk.snapshot.None? ==> s.saved == 0)
    && (s.disk.snapshot.Some? ==> s.disk.snapshot.value == StateAt(cfg, log, s.saved))
  }

  ghost predicate MemoryInv(cfg: Config, log: seq<Entry>, s: System)
    requires s.memory.Some?
  {
    var mem := s.memory.value;
    && s.position <= |log|
    && mem.core == StateAt(cfg, log, s.position)
    && (mem.indexed.Some? ==> AgreeOutside(mem.indexed.value, mem.core.coll.points, mem.dirty))
    && (s.rebuild.Some? ==> RebuildInv(cfg, log, s.rebuild.value))
    && (s.saved <= s.position || s.installing == Some(s.saved))
    && (s.journaled ==> JournaledInv(cfg, log, s))
  }

  /** Cutting the pending record off leaves a journal that ends at the applied position. */
  ghost predicate JournaledInv(cfg: Config, log: seq<Entry>, s: System) {
    && s.position < |log| && s.disk.journal != []
    && s.disk.journal[|s.disk.journal| - 1].logId.index == s.position
    && JournalEnds(cfg, log, s.disk.journal[..|s.disk.journal| - 1], s.saved, DurableEnd(s.(journaled := false)))
  }

  /** The points being indexed are a collection the log went through. */
  ghost predicate RebuildInv(cfg: Config, log: seq<Entry>, r: Rebuild) {
    exists a: nat :: a <= |log| && StateAt(cfg, log, a).coll == Coll(r.points, r.sequence)
  }

  /** The journal holds records of applied entries, and the pending one. */
  ghost predicate JournalBound(s: System) {
    var applied := if s.journaled then |s.disk.journal| - 1 else |s.disk.journal|;
    forall i {:trigger s.disk.journal[i]} :: 0 <= i < applied ==> s.disk.journal[i].logId.index < s.position
  }

  ghost predicate Inv(cfg: Config, log: seq<Entry>, s: System) {
    && DiskInv(cfg, log, s) && JournalBound(s)
    && JournalEnds(cfg, log, s.disk.journal, s.saved, DurableEnd(s))
    && (s.memory.Some? ==> MemoryInv(cfg, log, s))
    && (s.memory.None? ==> !s.journaled && s.installing.None? && s.rebuild.None? && s.saved <= s.position)
  }

  // ----- recovery --------------------------------------------------------

  /** What `n` further entries leave alone is what they do not dirty. */
  lemma ApplyDirties(cfg: Config, core: Core, entry: Entry, id: Id)
    requires id !in EntryDirties(cfg, core, entry)
    ensures SameOn(core.coll.points, ApplyEntry(cfg, core, entry).coll.points, id)
  {
    if entry.payload.Normal? {
      var c := entry.payload.command;
      if Lookup(core.dedup, Identity(c)).None? && Respond(cfg, core.coll, c).Applied? {
        var m := Prepare(cfg, Batch(c)).value;
        PrepareTouches(cfg, Batch(c));
        ApplyOn(core.coll, m, core.coll.sequence + 1, id);
      }
    }
  }

  lemma AgreeAfterEntry(cfg: Config, core: Core, indexed: Points, dirty: set<Id>, entry: Entry)
    requires AgreeOutside(indexed, core.coll.points, dirty)
    ensures AgreeOutside(indexed, ApplyEntry(cfg, core, entry).coll.points, dirty + EntryDirties(cfg, core, entry))
  {
    forall id | id !in dirty + EntryDirties(cfg, core, entry)
      ensures SameOn(indexed, ApplyEntry(cfg, core, entry).coll.points, id)
    {
      ApplyDirties(cfg, core, entry, id);
    }
  }

  /** A record below the snapshot is skipped. */
  lemma OldRecordIsCovered(cfg: Config, log: seq<Entry>, saved: nat, record: AppliedRecord)
    requires LogInv(log) && saved <= |log| && record.logId.index < saved
    ensures Covered(StateAt(cfg, log, saved), record)
  {
    LastAppliedIs(cfg, log, saved);
  }

  /** The record of the next entry is not skipped, and leads to the next state. */
  lemma NextRecordReaches(cfg: Config, log: seq<Entry>, base: Points, dirty: set<Id>, n: nat)
    requires LogInv(log) && n < |log| && AgreeOutside(base, StateAt(cfg, log, n).coll.points, dirty)
    ensures !Covered(StateAt(cfg, log, n), LogRecord(cfg, log, n))
    ensures var r := ReplayRecord(cfg, StateAt(cfg, log, n), dirty, LogRecord(cfg, log, n));
      && r.Ok? && r.value.0 == StateAt(cfg, log, n + 1)
      && AgreeOutside(base, r.value.0.coll.points, r.value.1)
  {
    LastAppliedIs(cfg, log, n);
    ReplayIsApply(cfg, StateAt(cfg, log, n), dirty, log[n]);
    AgreeAfterEntry(cfg, StateAt(cfg, log, n), base, dirty, log[n]);
  }

  lemma ReplayLast(cfg: Config, core: Core, journal: seq<AppliedRecord>, k: nat)
    requires 0 < k <= |journal| && ReplayJournal(cfg, core, journal[..k - 1]).Ok?
    ensures var before := ReplayJournal(cfg, core, journal[..k - 1]);
      ReplayJournal(cfg, core, journal[..k])
        == if Covered(before.value.0, journal[k - 1]) then before
           else ReplayRecord(cfg, before.value.0, before.value.1, journal[k - 1])
  {
    assert journal[..k][..k - 1] == journal[..k - 1] && journal[..k][k - 1] == journal[k - 1];
  }

  /** The first `k` journal records lead from the snapshot to the state at `n`. */
  ghost predicate Reached(cfg: Config, log: seq<Entry>, journal: seq<AppliedRecord>, saved: nat, k: nat, n: nat)
    requires saved <= |log| && n <= |log| && k <= |journal|
  {
    var r := ReplayJournal(cfg, StateAt(cfg, log, saved), journal[..k]);
    && r.Ok? && r.value.0 == StateAt(cfg, log, n)
    && AgreeOutside(StateAt(cfg, log, saved).coll.points, r.value.0.coll.points, r.value.1)
  }

  lemma SkipReaches(cfg: Config, log: seq<Entry>, journal: seq<AppliedRecord>, saved: nat, k: nat)
    requires LogInv(log) && saved <= |log| && k < |journal| && Reached(cfg, log, journal, saved, k, saved)
    requires journal[k].logId.index < saved
    ensures Reached(cfg, log, journal, saved, k + 1, saved)
  {
    ReplayLast(cfg, StateAt(cfg, log, saved), journal, k + 1);
    OldRecordIsCovered(cfg, log, saved, journal[k]);
  }

  lemma ApplyReaches(cfg: Config, log: seq<Entry>, journal: seq<AppliedRecord>, saved: nat, k: nat, n: nat)
    requires LogInv(log) && saved <= |log| && n < |log| && k < |journal| && Reached(cfg, log, journal, saved, k, n)
    requires journal[k] == LogRecord(cfg, log, n)
    ensures Reached(cfg, log, journal, saved, k + 1, n + 1)
  {
    var start := StateAt(cfg, log, saved);
    ReplayLast(cfg, start, journal, k + 1);
    NextRecordReaches(cfg, log, start.coll.points, ReplayJournal(cfg, start, journal[..k]).value.1, n);
  }

  /** Records that the snapshot covers change nothing. */
  lemma {:induction false} SkipsReach(
      cfg: Config, log: seq<Entry>, journal: seq<AppliedRecord>, saved: nat, k: nat)
    requires LogInv(log) && saved <= |log| && k <= |journal|
    requires forall i :: 0 <= i < k ==> journal[i].logId.index < saved
    ensures Reached(cfg, log, journal, saved, k, saved)
  {
    if k > 0 {
      SkipsReach(cfg, log, journal, saved, k - 1);
      SkipReaches(cfg, log, journal, saved, k - 1);
    }
  }

  /** The records behind them lead from state to state. */
  lemma {:induction false} ReplayReaches(
      cfg: Config, log: seq<Entry>, journal: seq<AppliedRecord>, saved: nat, end: nat, skip: nat, k: nat)
    requires LogInv(log) && JournalInv(cfg, log, journal, saved, end, skip) && skip <= k <= |journal|
    ensures Reached(cfg, log, journal, saved, k, saved + (k - skip))
    decreases k
  {
    if k == skip {
      SkipsReach(cfg, log, journal, saved, k);
    } else {
      ReplayReaches(cfg, log, journal, saved, end, skip, k - 1);
      ApplyReaches(cfg, log, journal, saved, k - 1, saved + (k - 1 - skip));
    }
  }

  lemma JournalReaches(cfg: Config, log: seq<Entry>, journal: seq<AppliedRecord>, saved: nat, end: nat)
    requires LogInv(log) && JournalEnds(cfg, log, journal, saved, end)
    ensures saved <= end <= |log|
    ensures var r := ReplayJournal(cfg, StateAt(cfg, log, saved), journal);
      && r.Ok? && r.value.0 == StateAt(cfg, log, end)
      && AgreeOutside(StateAt(cfg, log, saved).coll.points, r.value.0.coll.points, r.value.1)
  {
    var skip: nat :| JournalInv(cfg, log, journal, saved, end, skip);
    ReplayReaches(cfg, log, journal, saved, end, skip, |journal|);
    assert journal[..|journal|] == journal;
  }

  lemma RecoverReaches(cfg: Config, log: seq<Entry>, s: System, end: nat)
    requires LogInv(log) && DiskInv(cfg, log, s) && JournalEnds(cfg, log, s.disk.journal, s.saved, end)
    ensures Recover(cfg, s.disk).Ok?
    ensures var mem := Recover(cfg, s.disk).value;
      && end <= |log| && mem.core == StateAt(cfg, log, end)
      && (mem.indexed.Some? ==> AgreeOutside(mem.indexed.value, mem.core.coll.points, mem.dirty))
  {
    var journal := s.disk.journal;
    var start := if s.disk.snapshot.Some? then s.disk.snapshot.value else START;
    assert start == StateAt(cfg, log, s.saved);
    JournalReaches(cfg, log, journal, s.saved, end);
  }

  // ----- journals --------------------------------------------------------

  /** A newer snapshot covers a longer prefix of the same journal. */
  lemma RaiseSaved(cfg: Config, log: seq<Entry>, journal: seq<AppliedRecord>, saved: nat, end: nat, at: nat)
    requires LogInv(log) && JournalEnds(cfg, log, journal, saved, end) && saved <= at <= |log|
    ensures JournalEnds(cfg, log, journal, at, if end < at then at else end)
  {
    var skip: nat :| JournalInv(cfg, log, journal, saved, end, skip);
    var more := if end < at then |journal| else skip + (at - saved);
    assert JournalInv(cfg, log, journal, at, if end < at then at else end, more);
  }

  /** Appending the record of the next entry, or of one the snapshot already covers. */
  lemma AppendNext(cfg: Config, log: seq<Entry>, journal: seq<AppliedRecord>, saved: nat, end: nat, position: nat)
    requires LogInv(log) && JournalEnds(cfg, log, journal, saved, end) && position < |log|
    requires position == end || (position < saved && end == saved)
    ensures var longer := journal + [LogRecord(cfg, log, position)];
      JournalEnds(cfg, log, longer, saved, if position == end then end + 1 else end)
  {
    var skip: nat :| JournalInv(cfg, log, journal, saved, end, skip);
    var longer := journal + [LogRecord(cfg, log, position)];
    if position == end {
      assert JournalInv(cfg, log, longer, saved, end + 1, skip);
    } else {
      assert JournalInv(cfg, log, longer, saved, end, skip + 1);
    }
  }

  lemma EmptyJournal(cfg: Config, log: seq<Entry>, saved: nat)
    requires saved <= |log|
    ensures JournalEnds(cfg, log, [], saved, saved)
  {
    assert JournalInv(cfg, log, [], saved, saved, 0);
  }

  // ----- steps -----------------------------------------------------------

  lemma JournalKeeps(cfg: Config, log: seq<Entry>, s: System)
    requires LogInv(log) && Inv(cfg, log, s) && Enabled(log, s, Journal)
    ensures Inv(cfg, log, Do(cfg, log, s, Journal))
  {
    var t := Do(cfg, log, s, Journal);
    AppendNext(cfg, log, s.disk.journal, s.saved, DurableEnd(s), s.position);
    assert t.disk.journal[..|t.disk.journal| - 1] == s.disk.journal;
    assert t.(journaled := false).position == s.position;
  }

  lemma ApplyKeeps(cfg: Config, log: seq<Entry>, s: System)
    requires LogInv(log) && Inv(cfg, log, s) && Enabled(log, s, ApplyNext)
    ensures Inv(cfg, log, Do(cfg, log, s, ApplyNext))
  {
    var mem := s.memory.value;
    ReplayIsApply(cfg, mem.core, mem.dirty, log[s.position]);
    if mem.indexed.Some? { AgreeAfterEntry(cfg, mem.core, mem.indexed.value, mem.dirty, log[s.position]); }
  }

  /** Also between the halves of an install: then the older file covers the whole journal. */
  lemma BuildKeeps(cfg: Config, log: seq<Entry>, s: System)
    requires LogInv(log) && Inv(cfg, log, s) && Enabled(log, s, BuildSnapshot)
    ensures Inv(cfg, log, Do(cfg, log, s, BuildSnapshot))
  {
    assert JournalInv(cfg, log, s.disk.journal, s.position, s.position, |s.disk.journal|);
  }

  lemma PendingRaises(cfg: Config, log: seq<Entry>, s: System, at: nat)
    requires LogInv(log) && JournaledInv(cfg, log, s) && s.saved <= at <= |log|
    ensures JournaledInv(cfg, log, s.(saved := at))
  {
    var cut := s.disk.journal[..|s.disk.journal| - 1];
    RaiseSaved(cfg, log, cut, s.saved, DurableEnd(s.(journaled := false)), at);
  }

  lemma InstallFileKeeps(cfg: Config, log: seq<Entry>, s: System, at: nat)
    requires LogInv(log) && Inv(cfg, log, s) && Enabled(log, s, InstallFile(at))
    ensures Inv(cfg, log, Do(cfg, log, s, InstallFile(at)))
  {
    RaiseSaved(cfg, log, s.disk.journal, s.saved, DurableEnd(s), at);
    if s.journaled { PendingRaises(cfg, log, s, at); }
  }

  lemma InstallStateKeeps(cfg: Config, log: seq<Entry>, s: System)
    requires LogInv(log) && Inv(cfg, log, s) && Enabled(log, s, InstallState) && s.installing == Some(s.saved)
    ensures Inv(cfg, log, Do(cfg, log, s, InstallState))
  {
    EmptyJournal(cfg, log, s.saved);
  }

  lemma BeginRebuildKeeps(cfg: Config, log: seq<Entry>, s: System)
    requires Inv(cfg, log, s) && Enabled(log, s, BeginRebuild)
    ensures Inv(cfg, log, Do(cfg, log, s, BeginRebuild))
  {
    assert StateAt(cfg, log, s.position).coll == s.memory.value.core.coll;
  }

  /** Points copied at an unchanged sequence are the points of the collection. */
  lemma RebuiltIsCurrent(cfg: Config, log: seq<Entry>, r: Rebuild, position: nat)
    requires RebuildInv(cfg, log, r) && position <= |log| && StateAt(cfg, log, position).coll.sequence == r.sequence
    ensures StateAt(cfg, log, position).coll.points == r.points
  {
    var a: nat :| a <= |log| && StateAt(cfg, log, a).coll == Coll(r.points, r.sequence);
    SequenceDeterminesCollection(cfg, log, a, position);
  }

  lemma EndRebuildKeeps(cfg: Config, log: seq<Entry>, s: System)
    requires Inv(cfg, log, s) && Enabled(log, s, EndRebuild)
    ensures Inv(cfg, log, Do(cfg, log, s, EndRebuild))
  {
    if s.rebuild.value.sequence == s.memory.value.core.coll.sequence {
      RebuiltIsCurrent(cfg, log, s.rebuild.value, s.position);
    }
  }

  lemma ReopenKeeps(cfg: Config, log: seq<Entry>, s: System)
    requires LogInv(log) && Inv(cfg, log, s) && Enabled(log, s, Reopen)
    ensures Inv(cfg, log, Do(cfg, log, s, Reopen)) && Do(cfg, log, s, Reopen).memory.Some?
  {
    RecoverReaches(cfg, log, s, s.position);
    LastAppliedIs(cfg, log, s.position);
  }

  lemma StepKeeps(cfg: Config, log: seq<Entry>, s: System, step: Step)
    requires LogInv(log) && Inv(cfg, log, s) && Enabled(log, s, step) && Careful(s, step)
    ensures Inv(cfg, log, Do(cfg, log, s, step))
  {
    match step
    case Journal => JournalKeeps(cfg, log, s);
    case Undo =>
    case ApplyNext => ApplyKeeps(cfg, log, s);
    case BuildSnapshot => BuildKeeps(cfg, log, s);
    case InstallFile(at) => InstallFileKeeps(cfg, log, s, at);
    case InstallState => InstallStateKeeps(cfg, log, s);
    case BeginRebuild => BeginRebuildKeeps(cfg, log, s);
    case EndRebuild => EndRebuildKeeps(cfg, log, s);
    case Crash =>
    case Reopen => ReopenKeeps(cfg, log, s);
  }

  // ----- whole runs ------------------------------------------------------

  lemma FreshIsSound(cfg: Config, log: seq<Entry>)
    ensures Inv(cfg, log, FRESH)
  {
    EmptyJournal(cfg, log, 0);
  }

  lemma {:induction false} RunKeeps(cfg: Config, log: seq<Entry>, s: System, run: seq<Step>)
    requires LogInv(log) && Inv(cfg, log, s) && Legal(cfg, log, s, run)
    ensures Inv(cfg, log, Run(cfg, log, s, run))
    decreases |run|
  {
    if run != [] {
      StepKeeps(cfg, log, s, run[0]);
      RunKeeps(cfg, log, Do(cfg, log, s, run[0]), run[1..]);
    }
  }

  /**
   At every state of every run the replicated state is the fold of the log up
   to `lastApplied`, and reopening succeeds with the fold up to everything that
   was journaled or snapshotted, which is never less than what was applied.
   */
  lemma ReplicaIsFold(cfg: Config, log: seq<Entry>, run: seq<Step>)
    requires LogInv(log) && Legal(cfg, log, FRESH, run)
    ensures var s := Run(cfg, log, FRESH, run);
      && s.position <= DurableEnd(s) <= |log|
      && (s.memory.Some? ==> s.memory.value.core == StateAt(cfg, log, s.position))
      && Recover(cfg, s.disk).Ok?
      && Recover(cfg, s.disk).value.core == StateAt(cfg, log, DurableEnd(s))
  {
    FreshIsSound(cfg, log);
    RunKeeps(cfg, log, FRESH, run);
    var s := Run(cfg, log, FRESH, run);
    RecoverReaches(cfg, log, s, DurableEnd(s));
  }

  /** Replicas that applied the same entry hold the same collection, table and membership. */
  lemma ReplicasAgree(cfg: Config, log: seq<Entry>, runA: seq<Step>, runB: seq<Step>)
    requires LogInv(log) && Legal(cfg, log, FRESH, runA) && Legal(cfg, log, FRESH, runB)
    requires var a, b := Run(cfg, log, FRESH, runA), Run(cfg, log, FRESH, runB);
      && a.memory.Some? && b.memory.Some?
      && a.memory.value.core.lastApplied == b.memory.value.core.lastApplied
    ensures Run(cfg, log, FRESH, runA).memory.value.core == Run(cfg, log, FRESH, runB).memory.value.core
  {
    ReplicaIsFold(cfg, log, runA);
    ReplicaIsFold(cfg, log, runB);
    LastAppliedIs(cfg, log, Run(cfg, log, FRESH, runA).position);
    LastAppliedIs(cfg, log, Run(cfg, log, FRESH, runB).position);
  }

  /** Outside the dirty IDs both indexes hold exactly the live points, so no graph hit is missing. */
  lemma IndexesAgree(cfg: Config, log: seq<Entry>, run: seq<Step>)
    requires LogInv(log) && Legal(cfg, log, FRESH, run)
    ensures var s := Run(cfg, log, FRESH, run);
      s.memory.Some? && s.memory.value.indexed.Some? ==>
        var mem := s.memory.value;
        && AgreeOutside(mem.indexed.value, mem.core.coll.points, mem.dirty)
        && forall id :: id in mem.indexed.value && id !in mem.dirty ==> id in mem.core.coll.points
  {
    FreshIsSound(cfg, log);
    RunKeeps(cfg, log, FRESH, run);
    var s := Run(cfg, log, FRESH, run);
    if s.memory.Some? && s.memory.value.indexed.Some? {
      var mem := s.memory.value;
      forall id | id in mem.indexed.value && id !in mem.dirty ensures id in mem.core.coll.points {
        assert SameOn(mem.indexed.value, mem.core.coll.points, id);
      }
    }
  }

  // ----- an append that cannot be cut off --------------------------------

  /**
   A record whose append was reported as failed and could not be cut off is written again when its
   entry is retried. The state machine decides the same again, and recovery skips the second record.
   */
  lemma StrandedRecordIsHarmless(cfg: Config, log: seq<Entry>, s: System)
    requires LogInv(log) && Inv(cfg, log, s) && Enabled(log, s, Journal)
    ensures var t := Do(cfg, log, s, Journal);
      var again := t.(journaled := false);
      && Enabled(log, again, Journal)
      && Recover(cfg, Do(cfg, log, again, Journal).disk) == Recover(cfg, t.disk)
  {
    var t := Do(cfg, log, s, Journal);
    var record := RecordOf(cfg, s.memory.value.core, log[s.position]);
    JournalKeeps(cfg, log, s);
    RecoverReaches(cfg, log, t, DurableEnd(t));
    LastAppliedIs(cfg, log, DurableEnd(t));
    assert (t.disk.journal + [record])[..|t.disk.journal|] == t.disk.journal;
  }

  // ----- a build between the halves of an install ------------------------

  /**
   When `install_snapshot` takes over, reopening would restore the state it puts
   in memory if and only if its own snapshot file is still the current one.
   */
  lemma InstallIsDurableIff(cfg: Config, log: seq<Entry>, s: System)
    requires LogInv(log) && DiskInv(cfg, log, s) && Enabled(log, s, InstallState)
    ensures var t := Do(cfg, log, s, InstallState);
      && Recover(cfg, t.disk).Ok?
      && (Recover(cfg, t.disk).value.core == t.memory.value.core <==> s.saved == s.installing.value)
  {
    var t := Do(cfg, log, s, InstallState);
    EmptyJournal(cfg, log, s.saved);
    RecoverReaches(cfg, log, t, s.saved);
    LastAppliedIs(cfg, log, s.saved);
    LastAppliedIs(cfg, log, s.installing.value);
  }

  /** A run of steps that the code can take. */
  ghost predicate Possible(cfg: Config, log: seq<Entry>, s: System, run: seq<Step>)
    decreases |run|
  {
    run == [] || (Enabled(log, s, run[0]) && Possible(cfg, log, Do(cfg, log, s, run[0]), run[1..]))
  }

  /** After each install of the run, reopening restores what the install put in memory. */
  ghost predicate InstallsLast(cfg: Config, log: seq<Entry>, s: System, run: seq<Step>)
    requires Possible(cfg, log, s, run)
    decreases |run|
  {
    run == [] ||
    var t := Do(cfg, log, s, run[0]);
    && (run[0].InstallState? ==> Recover(cfg, t.disk).Ok? && Recover(cfg, t.disk).value.core == t.memory.value.core)
    && InstallsLast(cfg, log, t, run[1..])
  }

  /** Over every run the installs last if and only if each takes over while its own file is current. */
  lemma {:induction false} InstallsLastIff(cfg: Config, log: seq<Entry>, s: System, run: seq<Step>)
    requires LogInv(log) && Inv(cfg, log, s) && Possible(cfg, log, s, run)
    ensures InstallsLast(cfg, log, s, run) <==> Legal(cfg, log, s, run)
    decreases |run|
  {
    if run != [] {
      if run[0].InstallState? { InstallIsDurableIff(cfg, log, s); }
      if Careful(s, run[0]) {
        StepKeeps(cfg, log, s, run[0]);
        InstallsLastIff(cfg, log, Do(cfg, log, s, run[0]), run[1..]);
      }
    }
  }

  /** A concrete interleaving: the build overwrites the newer file, the install then empties the journal. */
  lemma BuildInsideInstallLoses(cfg: Config, log: seq<Entry>, at: nat)
    requires LogInv(log) && 0 < at <= |log|
    ensures var written := Do(cfg, log, FRESH, InstallFile(at));
      && Enabled(log, written, BuildSnapshot)
      && var built := Do(cfg, log, written, BuildSnapshot);
      && Enabled(log, built, InstallState)
      && var s := Do(cfg, log, built, InstallState);
      && s.memory.value.core == StateAt(cfg, log, at)
      && Recover(cfg, s.disk).Ok? && Recover(cfg, s.disk).value.core == START
  {
    assert StateAt(cfg, log, 0) == START;
  }
}
