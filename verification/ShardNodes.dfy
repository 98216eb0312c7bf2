/** `DurableShardStateMachine`: the methods of a replica, each proved to take the steps of `ShardReplicas`. */
module ShardNodes {
  import opened Base
  import opened Filters
  import opened Collections
  import opened CollectionStore
  import opened MetadataIndexes
  import opened Ranking
  import opened ShardMachine
  import opened ShardReplicas
  import FilteredSearch
  import ShardSearch

  const MIN_REINDEXED_POINTS: nat := 256
  const REINDEX_DIRTY_DIVISOR: nat := 5

  function DivCeil(a: nat, b: nat): nat
    requires b > 0
  {
    (a + b - 1) / b
  }

  predicate ShouldRebuild(indexed: bool, dirtyCount: nat, pointCount: nat) {
    && dirtyCount >= MIN_REINDEXED_POINTS
    && (!indexed || dirtyCount >= ShardSearch.Max(DivCeil(pointCount, REINDEX_DIRTY_DIVISOR), MIN_REINDEXED_POINTS))
  }

  /** The responses to the log entries from `start` on. */
  ghost predicate Answers(cfg: Config, log: seq<Entry>, start: nat, responses: seq<Response>) {
    && start + |responses| <= |log|
    && forall i {:trigger responses[i]} :: 0 <= i < |responses| ==> responses[i] == ResponseAt(cfg, log, start + i)
  }

  lemma AnswersNext(cfg: Config, log: seq<Entry>, start: nat, responses: seq<Response>, next: Response)
    requires Answers(cfg, log, start, responses) && start + |responses| < |log|
    requires next == ResponseAt(cfg, log, start + |responses|)
    ensures Answers(cfg, log, start, responses + [next])
  {
  }

  /** The IDs that a command names. */
  ghost predicate Names(c: Command, id: Id) {
    match c
    case UpsertCommand(_, _, points) => exists i :: 0 <= i < |points| && points[i].id == id
    case DeleteCommand(_, _, ids) => id in ids
  }

  /**
   The replica before and after entry `i`: the collection changes only for a first request that is
   applied, and then the IDs it names become dirty; the position always moves.
   */
  ghost predicate EntryApplied(
      cfg: Config, log: seq<Entry>, i: nat, before: Core, was: set<Id>, after: Core, dirty: set<Id>, r: Response)
  {
    && i < |log| && after.lastApplied == Some(log[i].logId)
    && (if log[i].payload.Normal? && !IsRetry(log, i) && r.Applied? then
          && Performs(cfg, log[i].payload.command, before.coll.sequence + 1, before.coll, after.coll)
          && r.sequence == before.coll.sequence + 1
          && forall id :: id in dirty <==> id in was || Names(log[i].payload.command, id)
        else after.coll == before.coll && dirty == was)
    && (if log[i].payload.Membership?
        then after.membership == StoredMembership(Some(log[i].logId), log[i].payload.nodes)
        else after.membership == before.membership)
  }

  lemma ApplyEntryMeans(cfg: Config, log: seq<Entry>, i: nat, core: Core, dirty: set<Id>)
    requires i < |log| && core == StateAt(cfg, log, i)
    ensures EntryApplied(cfg, log, i, core, dirty, ApplyEntry(cfg, core, log[i]),
                         dirty + EntryDirties(cfg, core, log[i]), ResponseAt(cfg, log, i))
  {
    if log[i].payload.Normal? {
      var c := log[i].payload.command;
      RetryIsKnown(cfg, log, i);
      if !IsRetry(log, i) {
        FreshCommandMeans(cfg, core, log[i]);
        forall id ensures id in Touched(Batch(c)) <==> Names(c, id) {}
      }
    }
  }

  /** Journaling an entry and applying it, together. */
  lemma AppliedIs(cfg: Config, log: seq<Entry>, s: System)
    requires s.memory.Some? && Legal(cfg, log, s, [Journal, ApplyNext])
    ensures var t, mem, entry := Run(cfg, log, s, [Journal, ApplyNext]), s.memory.value, log[s.position];
      && t.memory.Some? && t.memory.value.core == ApplyEntry(cfg, mem.core, entry)
      && t.memory.value.dirty == mem.dirty + EntryDirties(cfg, mem.core, entry)
      && t.disk.snapshot == s.disk.snapshot && t.disk.journal == s.disk.journal + [RecordOf(cfg, mem.core, entry)]
  {
    var mid := Do(cfg, log, s, Journal);
    assert [Journal, ApplyNext][1..] == [ApplyNext] && [ApplyNext][1..] == [];
    assert Run(cfg, log, mid, [ApplyNext]) == Do(cfg, log, mid, ApplyNext);
    ReplayIsApply(cfg, s.memory.value.core, s.memory.value.dirty, log[s.position]);
  }

  class DurableShard {
    const cfg: Config
    const collection: Collection
    var snapshot: Option<Core>
    var journal: seq<AppliedRecord>
    var lastApplied: Option<LogId>
    var membership: StoredMembership
    var dedup: Dedup
    var index: Option<Index>
    var dirty: set<Id>
    ghost var indexed: Points
    ghost var system: System

    ghost function CoreView(): Core
      reads this, collection
    {
      Core(collection.View(), lastApplied, membership, dedup)
    }

    ghost function View(): Memory
      reads this, collection
    {
      Memory(CoreView(), if index.Some? then Some(indexed) else None, dirty)
    }

    ghost predicate Valid()
      reads this, collection
    {
      && collection.cfg == cfg
      && system.disk == Disk(snapshot, journal)
      && system.memory == Some(View())
      && !system.journaled
      && (index.Some? ==> Indexes(index.value, indexed))
    }

    constructor Restore(
        cfg: Config, snapshot: Option<Core>, journal: seq<AppliedRecord>, loaded: Memory, index: Option<Index>,
        ghost log: seq<Entry>, ghost down: System)
      requires down.memory.None? && !down.journaled && down.disk == Disk(snapshot, journal)
      requires Recover(cfg, down.disk) == Ok(loaded) && index.Some? == loaded.indexed.Some?
      requires index.Some? ==> Indexes(index.value, loaded.indexed.value)
      ensures Valid() && fresh(collection) && this.cfg == cfg && View() == loaded
      ensures system == Do(cfg, log, down, Reopen)
    {
      this.cfg := cfg;
      this.snapshot, this.journal := snapshot, journal;
      var c := new Collection(cfg);
      c.points := loaded.core.coll.points;
      c.sequence := loaded.core.coll.sequence;
      collection := c;
      lastApplied, membership, dedup := loaded.core.lastApplied, loaded.core.membership, loaded.core.dedup;
      this.index := index;
      dirty := loaded.dirty;
      indexed := if loaded.indexed.Some? then loaded.indexed.value else map[];
      system := Do(cfg, log, down, Reopen);
    }

    /** `replay_record`, in place. */
    method ReplayInPlace(record: AppliedRecord) returns (r: Result<()>)
      requires collection.cfg == cfg
      modifies this`lastApplied, this`membership, this`dedup, this`dirty, collection
      ensures var replayed := ReplayRecord(cfg, old(CoreView()), old(dirty), record);
        replayed.Ok? ==> r.Ok? && CoreView() == replayed.value.0 && dirty == replayed.value.1
    {
      match record.payload {
        case BlankApplied =>
        case MembershipApplied(nodes) => membership := StoredMembership(Some(record.logId), nodes);
        case CommandApplied(c, response) =>
          if Lookup(dedup, Identity(c)).None? {
            if response.Applied? {
              dirty := dirty + Touched(Batch(c));
              match c {
                case UpsertCommand(_, _, points) =>
                  var prepared := collection.PrepareUpsert(points);
                  if prepared.Err? {
                    return Err(prepared.error);
                  }
                  collection.ApplyPreparedUpsert(prepared.value, response.sequence);
                case DeleteCommand(_, _, ids) =>
                  collection.ApplyDeleteAt(ids, response.sequence);
              }
            }
            dedup := Remember(dedup, Identity(c), response);
          }
      }
      lastApplied := Some(record.logId);
      r := Ok(());
    }

    /** The steps of one entry. */
    method StepOne(ghost log: seq<Entry>, entry: Entry) returns (response: Response)
      requires Valid() && LogInv(log) && Inv(cfg, log, system)
      requires system.position < |log| && entry == log[system.position]
      modifies this, collection
      ensures Valid() && Inv(cfg, log, system)
      ensures response == ResponseAt(cfg, log, old(system.position))
      ensures system.position == old(system.position) + 1
      ensures Legal(cfg, log, old(system), [Journal, ApplyNext])
      ensures system == Run(cfg, log, old(system), [Journal, ApplyNext])
    {
      ghost var before := system;
      ghost var core := CoreView();
      ghost var mid := Do(cfg, log, before, Journal);
      ghost var after := Do(cfg, log, mid, ApplyNext);
      StepKeeps(cfg, log, before, Journal);
      StepKeeps(cfg, log, mid, ApplyNext);
      ReplayIsApply(cfg, core, dirty, entry);
      var present := Core(Coll(collection.points, collection.sequence), lastApplied, membership, dedup);
      var decided := PreparePayload(cfg, present, entry);
      var record := AppliedRecord(entry.logId, decided.0);
      journal := journal + [record];
      var replayed := ReplayInPlace(record);
      response := decided.1;
      system := after;
      assert [Journal, ApplyNext][1..] == [ApplyNext] && [ApplyNext][1..] == [];
      assert Legal(cfg, log, after, []);
    }

    /** One entry of `apply`: decide the response, journal it, apply it. */
    method ApplyOne(ghost log: seq<Entry>, entry: Entry) returns (response: Response)
      requires Valid() && LogInv(log) && Inv(cfg, log, system)
      requires system.position < |log| && entry == log[system.position]
      modifies this, collection
      ensures Valid() && Inv(cfg, log, system)
      ensures response == ResponseAt(cfg, log, old(system.position))
      ensures system.position == old(system.position) + 1
      ensures Legal(cfg, log, old(system), [Journal, ApplyNext])
      ensures system == Run(cfg, log, old(system), [Journal, ApplyNext])
      ensures EntryApplied(cfg, log, old(system.position), old(CoreView()), old(dirty), CoreView(), dirty, response)
      ensures snapshot == old(snapshot)
      ensures |journal| == |old(journal)| + 1 && journal[..|old(journal)|] == old(journal)
      ensures journal[|old(journal)|].logId == entry.logId
    {
      ApplyEntryMeans(cfg, log, system.position, CoreView(), dirty);
      response := StepOne(log, entry);
      AppliedIs(cfg, log, old(system));
    }

    method AnswerOne(ghost log: seq<Entry>, entry: Entry) returns (response: Response)
      requires Valid() && LogInv(log) && Inv(cfg, log, system)
      requires system.position < |log| && entry == log[system.position]
      modifies this, collection
      ensures Valid() && Inv(cfg, log, system) && system.position == old(system.position) + 1
      ensures response == ResponseAt(cfg, log, old(system.position))
    {
      response := ApplyOne(log, entry);
    }

    /** `apply`: consecutive committed entries, one response each. */
    method ApplyEntries(ghost log: seq<Entry>, entries: seq<Entry>) returns (responses: seq<Response>)
      requires Valid() && LogInv(log) && Inv(cfg, log, system)
      requires system.position + |entries| <= |log|
      requires entries == log[system.position..system.position + |entries|]
      modifies this, collection
      ensures Valid() && Inv(cfg, log, system)
      ensures CoreView() == StateAt(cfg, log, old(system.position) + |entries|)
      ensures |responses| == |entries| && Answers(cfg, log, old(system.position), responses)
    {
      responses := [];
      ghost var start := system.position;
      for n := 0 to |entries|
        invariant Valid() && Inv(cfg, log, system) && system.position == start + n
        invariant |responses| == n && Answers(cfg, log, start, responses)
      {
        assert entries[n] == log[start + n];
        var response := AnswerOne(log, entries[n]);
        AnswersNext(cfg, log, start, responses, response);
        responses := responses + [response];
      }
    }

    /** `build_snapshot`, under the lock. */
    method BuildSnapshotFile(ghost log: seq<Entry>)
      requires Valid()
      modifies this
      ensures Valid() && Enabled(log, old(system), BuildSnapshot)
      ensures system == Do(cfg, log, old(system), BuildSnapshot)
      ensures CoreView() == old(CoreView()) && snapshot == Some(CoreView()) && journal == old(journal)
      ensures index.Some? && indexed == collection.points && dirty == {}
    {
      var built := Build(collection.points);
      snapshot := Some(Core(Coll(collection.points, collection.sequence), lastApplied, membership, dedup));
      index := Some(built);
      dirty := {};
      indexed := collection.points;
      system := Do(cfg, log, system, BuildSnapshot);
    }

    /** The half of `install_snapshot` that runs under the lock. */
    method InstallUnderLock(ghost log: seq<Entry>, received: Core)
      requires Valid() && system.installing.Some? && system.installing.value <= |log|
      requires received == StateAt(cfg, log, system.installing.value)
      modifies this, collection
      ensures Valid() && system == Do(cfg, log, old(system), InstallState)
      ensures CoreView() == received && journal == [] && snapshot == old(snapshot)
      ensures index.Some? && indexed == received.coll.points && dirty == {}
    {
      var built := Build(received.coll.points);
      journal := [];
      collection.points := received.coll.points;
      collection.sequence := received.coll.sequence;
      lastApplied, membership, dedup := received.lastApplied, received.membership, received.dedup;
      index := Some(built);
      dirty := {};
      indexed := received.coll.points;
      system := Do(cfg, log, system, InstallState);
    }

    /** First critical section of `refresh_index_if_needed`. */
    method CopyForRebuild(ghost log: seq<Entry>) returns (rebuild: Option<Rebuild>)
      requires Valid() && system.rebuild.None?
      modifies this`system
      ensures Valid()
      ensures rebuild.Some? <==> ShouldRebuild(index.Some?, |dirty|, |collection.points|)
      ensures rebuild.Some? <==> |dirty| >= 256 && (index.None? || 5 * |dirty| >= |collection.points|)
      ensures rebuild.Some? ==> rebuild.value == Rebuild(collection.sequence, collection.points)
      ensures rebuild.None? ==> system == old(system)
      ensures rebuild.Some? ==> system == Do(cfg, log, old(system), BeginRebuild) && rebuild == system.rebuild
    {
      rebuild := None;
      if ShouldRebuild(index.Some?, |dirty|, |collection.points|) {
        rebuild := Some(Rebuild(collection.sequence, collection.points));
        system := Do(cfg, log, system, BeginRebuild);
      }
    }

    /** Second critical section: publish only if the sequence has not moved. */
    method PublishRebuild(ghost log: seq<Entry>, rebuild: Rebuild, built: Index)
      requires Valid() && system.rebuild == Some(rebuild) && Indexes(built, rebuild.points)
      modifies this`system, this`index, this`dirty, this`indexed
      ensures Valid() && system == Do(cfg, log, old(system), EndRebuild)
      ensures collection.sequence == rebuild.sequence ==>
        index == Some(built) && indexed == rebuild.points && dirty == {}
      ensures collection.sequence != rebuild.sequence ==>
        index == old(index) && indexed == old(indexed) && dirty == old(dirty)
    {
      if collection.sequence == rebuild.sequence {
        index := Some(built);
        dirty := {};
        indexed := rebuild.points;
      }
      system := Do(cfg, log, system, EndRebuild);
    }

    /** Filtered search on the replica: as many distinct matching current hits as there are, up to `k`. */
    method SearchWithFilter(
        ghost log: seq<Entry>, query: Vector, k: nat, ef: nat, f: Filter, graph: nat -> set<Id>, nodes: nat)
      returns (r: Result<seq<Hit>>)
      requires Valid() && Inv(cfg, log, system)
      requires index.Some? ==> nodes == |indexed| && forall g :: graph(g) <= indexed.Keys
      ensures r.Err? <==> ef < k || CheckQuery(cfg, k, query).Err?
      ensures r.Ok? ==> Complete(cfg, query, k, collection.points, f, r.value)
      ensures ef < k ==> r == Err(InvalidQuery)
      ensures ef >= k && (index.None? || FewClean(indexed, dirty, f, nodes, k)) ==>
        ExactAnswer(cfg, collection.points, collection.points.Keys, query, k, Some(f), r)
      ensures r.Ok? && index.Some? && !FewClean(indexed, dirty, f, nodes, k) ==>
        var score := ScoreBy(cfg, CheckQuery(cfg, k, query).value);
        exists rounds: nat ::
          ShardSearch.GraphAnswer(collection.points, nodes, dirty, k, ef, f, score, graph, rounds, r.value)
    {
      ExactlyOnce(cfg, log, system.position);
      HistoryIsWellKeyed(Accepted(cfg, log, system.position), collection.sequence);
      if ef < k {
        return Err(InvalidQuery);
      }
      if index.None? {
        r := collection.Search(query, k, Some(f));
      } else {
        r := ShardSearch.SearchFiltered(
          cfg, query, collection.points, index.value, indexed, nodes, dirty, k, ef, f, graph);
      }
    }

    /** Search without a filter: the best of what one round of the graph and the dirty points offer. */
    method SearchWithoutFilter(
        ghost log: seq<Entry>, query: Vector, k: nat, ef: nat, graph: nat -> set<Id>, nodes: nat)
      returns (r: Result<seq<Hit>>)
      requires Valid() && Inv(cfg, log, system)
      requires index.Some? ==> nodes == |indexed| && forall g :: graph(g) <= indexed.Keys
      ensures r.Err? <==> ef < k || CheckQuery(cfg, k, query).Err?
      ensures index.None? && ef >= k ==>
        ExactAnswer(cfg, collection.points, collection.points.Keys, query, k, None, r)
      ensures index.Some? && r.Ok? ==> var score := ScoreBy(cfg, cfg.prepare(query).value);
        IsTopK(r.value, ShardSearch.Offered(collection.points, nodes, dirty, k, score, graph), k)
    {
      ExactlyOnce(cfg, log, system.position);
      HistoryIsWellKeyed(Accepted(cfg, log, system.position), collection.sequence);
      if ef < k {
        return Err(InvalidQuery);
      }
      if index.None? {
        r := collection.Search(query, k, None);
      } else {
        r := ShardSearch.SearchUnfiltered(cfg, query, collection.points, indexed, nodes, dirty, k, ef, graph);
      }
    }

    /** `refresh_index_if_needed`, when nothing happens between its two sections. */
    method RefreshIndex(ghost log: seq<Entry>)
      requires Valid() && system.rebuild.None? && LogInv(log) && Inv(cfg, log, system)
      modifies this`system, this`index, this`dirty, this`indexed
      ensures Valid() && Inv(cfg, log, system) && system.rebuild.None?
      ensures system == old(system)
        || system == Do(cfg, log, Do(cfg, log, old(system), BeginRebuild), EndRebuild)
      ensures ShouldRebuild(old(index).Some?, |old(dirty)|, |collection.points|) ==>
        dirty == {} && indexed == collection.points
    {
      var rebuild := CopyForRebuild(log);
      if rebuild.Some? {
        BeginRebuildKeeps(cfg, log, old(system));
        var built := Build(rebuild.value.points);
        EndRebuildKeeps(cfg, log, system);
        PublishRebuild(log, rebuild.value, built);
      }
    }
  }

  /** So few clean candidates match that the exact plan is taken. */
  ghost predicate FewClean(indexed: Points, dirty: set<Id>, f: Filter, nodes: nat, k: nat) {
    ShardSearch.FewCandidates(|FilteredSearch.CleanMatches(indexed, dirty, f)|, nodes, k)
  }

  /** Exactly `min(k, matching)` ranked hits of matching live points. */
  ghost predicate Complete(cfg: Config, query: Vector, k: nat, points: Points, f: Filter, r: seq<Hit>)
    requires CheckQuery(cfg, k, query).Ok?
  {
    var all := AllHits(points, Some(f), ScoreBy(cfg, CheckQuery(cfg, k, query).value));
    Ranked(r) && Elements(r) <= all && |r| == Min(k, |all|)
  }

  lemma {:induction false} ReplayJournalErrorStays(cfg: Config, core: Core, journal: seq<AppliedRecord>, k: nat)
    requires k <= |journal| && ReplayJournal(cfg, core, journal[..k]).Err?
    ensures ReplayJournal(cfg, core, journal) == ReplayJournal(cfg, core, journal[..k])
    decreases |journal|
  {
    if k < |journal| {
      var init := journal[..|journal| - 1];
      assert init[..k] == journal[..k];
      ReplayJournalErrorStays(cfg, core, init, k);
    } else {
      assert journal[..k] == journal;
    }
  }

  /** `open`: decode the snapshot, then replay what the journal adds to it. */
  method OpenShard(cfg: Config, snapshot: Option<Core>, journal: seq<AppliedRecord>)
    returns (r: Result<Memory>, index: Option<Index>)
    ensures r == Recover(cfg, Disk(snapshot, journal))
    ensures r.Ok? ==> index.Some? == r.value.indexed.Some? == snapshot.Some?
    ensures r.Ok? && index.Some? ==> Indexes(index.value, r.value.indexed.value)
  {
    index := None;
    var start := START;
    if snapshot.Some? {
      start := snapshot.value;
      var built := Build(start.coll.points);
      index := Some(built);
    }
    var core, dirty: set<Id> := start, {};
    for k := 0 to |journal|
      invariant ReplayJournal(cfg, start, journal[..k]) == Ok((core, dirty))
    {
      assert journal[..k + 1][..k] == journal[..k];
      if !Covered(core, journal[k]) {
        var replayed := ReplayRecord(cfg, core, dirty, journal[k]);
        if replayed.Err? {
          ReplayJournalErrorStays(cfg, start, journal, k + 1);
          r := Err(replayed.error);
          return;
        }
        core, dirty := replayed.value.0, replayed.value.1;
      }
    }
    assert journal[..|journal|] == journal;
    r := Ok(Memory(core, if snapshot.Some? then Some(start.coll.points) else None, dirty));
  }
}
