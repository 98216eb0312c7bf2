/**
 The sharded collection over its open shards: `upsert`, `delete` and `search`
 call the shards' own operations, and their contracts are those of `Sharding` and
 `ShardedSearch`.
 */
module ShardedCollections {
  import opened Base
  import opened Filters
  import opened Collections
  import opened Durability
  import opened CrashSafety
  import opened ExactReplays
  import opened Ranking
  import opened CollectionStore
  import opened PersistentCollections
  import opened Routing
  import opened Sharding
  import opened ShardedRequests
  import opened ShardedSearch

  // ----- the state of the shards -----------------------------------------

  ghost function MemoryOf(sys: System): Memory {
    if Up(sys) then sys.memory.value else Memory(EMPTY, [], None, {})
  }

  ghost function MemoriesOf(systems: seq<System>): seq<Memory> {
    seq(|systems|, s requires 0 <= s < |systems| => MemoryOf(systems[s]))
  }

  /** What the shards hold. */
  ghost function Held(systems: seq<System>): seq<Coll> {
    seq(|systems|, s requires 0 <= s < |systems| => MemoryOf(systems[s]).coll)
  }

  /** An open shard; it is the running process of `sys`. */
  ghost predicate Open(cfg: Config, shard: PersistentCollection, sys: System)
    reads shard, shard.inner
  {
    shard.cfg == cfg && shard.Valid() && shard.system == sys
  }

  ghost predicate Running(cfg: Config, sys: System) {
    Up(sys) && sys.phase.Idle? && Inv(cfg, sys)
  }

  ghost predicate AllRunning(cfg: Config, systems: seq<System>) {
    forall s {:trigger Running(cfg, systems[s])} :: 0 <= s < |systems| ==> Running(cfg, systems[s])
  }

  ghost predicate Ready(cfg: Config, route: Route, systems: seq<System>) {
    AllRunning(cfg, systems) && AtHome(route, Held(systems))
  }

  /** The shard acknowledges `m`: its frame is logged and applied. */
  ghost function Written(cfg: Config, sys: System, m: Mutation): System
    requires Enabled(cfg, sys, Write(m))
  {
    Do(cfg, Do(cfg, sys, Write(m)), Acknowledge)
  }

  ghost predicate Takes(cfg: Config, sys: System, m: Mutation) {
    Enabled(cfg, sys, Write(m)) && Accepts(cfg, m)
  }

  lemma WrittenRuns(cfg: Config, sys: System, m: Mutation)
    requires Running(cfg, sys) && Takes(cfg, sys, m)
    ensures Running(cfg, Written(cfg, sys, m))
  {
    WriteKeeps(cfg, sys, m);
    AcknowledgeKeeps(cfg, Do(cfg, sys, Write(m)));
  }

  lemma WrittenMeans(cfg: Config, sys: System, m: Mutation)
    requires Takes(cfg, sys, m)
    ensures MemoryOf(Written(cfg, sys, m)).coll
      == Apply(MemoryOf(sys).coll, Prepare(cfg, m).value, MemoryOf(sys).coll.sequence + 1)
  {
  }

  /**
   A shard that crashes restores what it holds, and so every part it acknowledged, and holds it
   unchanged if its log is stable.
   */
  lemma ShardReopens(cfg: Config, sys: System)
    requires Running(cfg, sys)
    ensures Restores(cfg, sys.disk, sys.history, sys.walStart) && At(sys.history, |sys.history|) == MemoryOf(sys).coll
    ensures LogStable(cfg, sys.disk, sys.walStart) ==> RestoresExactly(cfg, sys.disk, sys.history)
  {
    RecoverRestores(cfg, sys.history, sys.disk, sys.walStart);
    if LogStable(cfg, sys.disk, sys.walStart) { StableRestores(cfg, sys.history, sys.disk, sys.walStart); }
  }

  /** The first `n` shards have acknowledged their parts of the request `m`. */
  ghost function Acknowledged(cfg: Config, route: Route, m: Mutation, systems: seq<System>, n: nat): seq<System> {
    seq(|systems|, s requires 0 <= s < |systems| =>
      var part := PartFor(route, m, s);
      if s < n && !IsEmpty(part) && Takes(cfg, systems[s], part) then Written(cfg, systems[s], part) else systems[s])
  }

  /** A shard takes its part exactly when it does not refuse it. */
  lemma TakesUnlessRefused(cfg: Config, route: Route, m: Mutation, prepared: Mutation, systems: seq<System>, s: nat)
    requires Prepare(cfg, m) == Ok(prepared) && s < |systems| && Up(systems[s]) && systems[s].phase.Idle?
    requires !IsEmpty(PartFor(route, m, s))
    ensures Takes(cfg, systems[s], PartFor(route, m, s)) <==> !Refuses(cfg, route, prepared, Held(systems), s)
  {
    PartOfPrepared(cfg, route, m, prepared, s);
  }

  /** One turn of the commit loop on the shards' durable states. */
  lemma CommitTurn(cfg: Config, route: Route, m: Mutation, prepared: Mutation, systems: seq<System>, s: nat)
    requires Prepare(cfg, m) == Ok(prepared) && s < |systems| && AllRunning(cfg, systems)
    ensures var part, now := PartFor(route, m, s), Acknowledged(cfg, route, m, systems, s);
      var next := Acknowledged(cfg, route, m, systems, s + 1);
      && now[s] == systems[s]
      && (IsEmpty(part) ==> next == now && !Refuses(cfg, route, prepared, Held(systems), s))
      && (!IsEmpty(part) ==> (Takes(cfg, systems[s], part) <==> !Refuses(cfg, route, prepared, Held(systems), s)))
      && (!IsEmpty(part) && Takes(cfg, systems[s], part) ==> next == now[s := Written(cfg, systems[s], part)])
      && (!IsEmpty(part) ==> Prepare(cfg, part).Ok?)
  {
    var part, now := PartFor(route, m, s), Acknowledged(cfg, route, m, systems, s);
    var next := Acknowledged(cfg, route, m, systems, s + 1);
    assert forall t :: 0 <= t < |systems| && t != s ==> next[t] == now[t];
    PartOfPrepared(cfg, route, m, prepared, s);
    assert Running(cfg, systems[s]);
    if !IsEmpty(part) { TakesUnlessRefused(cfg, route, m, prepared, systems, s); }
  }

  lemma AcknowledgedRun(cfg: Config, route: Route, m: Mutation, systems: seq<System>, n: nat)
    requires AllRunning(cfg, systems)
    ensures AllRunning(cfg, Acknowledged(cfg, route, m, systems, n))
  {
    var after := Acknowledged(cfg, route, m, systems, n);
    forall s | 0 <= s < |after| ensures Running(cfg, after[s]) {
      var part := PartFor(route, m, s);
      assert Running(cfg, systems[s]);
      if Takes(cfg, systems[s], part) { WrittenRuns(cfg, systems[s], part); }
    }
  }

  /** What the acknowledging shards hold is what `Sharding` says they hold. */
  lemma AcknowledgedHold(
      cfg: Config, route: Route, m: Mutation, prepared: Mutation, systems: seq<System>, n: nat)
    requires Prepare(cfg, m) == Ok(prepared) && n <= |systems|
    requires forall s :: 0 <= s < |systems| ==> Up(systems[s]) && systems[s].phase.Idle?
    requires forall s :: 0 <= s < n ==> !Refuses(cfg, route, prepared, Held(systems), s)
    ensures Held(Acknowledged(cfg, route, m, systems, n)) == Partly(route, prepared, Held(systems), n)
  {
    var after, expected := Acknowledged(cfg, route, m, systems, n), Partly(route, prepared, Held(systems), n);
    forall s | 0 <= s < |systems| ensures Held(after)[s] == expected[s] {
      if s < n { AcknowledgedPart(cfg, route, m, prepared, systems, s); }
    }
  }

  lemma AcknowledgedPart(cfg: Config, route: Route, m: Mutation, prepared: Mutation, systems: seq<System>, s: nat)
    requires Prepare(cfg, m) == Ok(prepared) && s < |systems| && Up(systems[s]) && systems[s].phase.Idle?
    requires !Refuses(cfg, route, prepared, Held(systems), s)
    ensures var part := PartFor(route, m, s);
      if IsEmpty(part) then CommitOn(route, prepared, s, Held(systems)[s]) == Held(systems)[s]
      else
        && Takes(cfg, systems[s], part)
        && MemoryOf(Written(cfg, systems[s], part)).coll == CommitOn(route, prepared, s, Held(systems)[s])
  {
    CommitStep(cfg, route, m, prepared, Held(systems), s);
    var part := PartFor(route, m, s);
    if !IsEmpty(part) {
      TakesUnlessRefused(cfg, route, m, prepared, systems, s);
      WrittenMeans(cfg, systems[s], part);
    }
  }

  // ----- the sharded collection ------------------------------------------

  datatype ShardCommit = ShardCommit(shard: nat, sequence: nat, affected: nat)

  function Size(m: Mutation): nat { if m.Upsert? then |m.points| else |m.ids| }

  /** One report for each of the first `n` shards that got a part. */
  function CommitList(route: Route, m: Mutation, shards: seq<Coll>, n: nat): seq<ShardCommit>
    requires n <= |shards|
  {
    if n == 0 then []
    else
      var before, part := CommitList(route, m, shards, n - 1), PartFor(route, m, n - 1);
      if IsEmpty(part) then before else before + [ShardCommit(n - 1, shards[n - 1].sequence + 1, Size(part))]
  }

  lemma CommitListStep(route: Route, m: Mutation, shards: seq<Coll>, s: nat)
    requires s < |shards|
    ensures var part := PartFor(route, m, s);
      CommitList(route, m, shards, s + 1) == CommitList(route, m, shards, s)
        + if IsEmpty(part) then [] else [ShardCommit(s, shards[s].sequence + 1, Size(part))]
  {
  }

  // ----- the reports -----------------------------------------------------

  /** The places in the request of what goes to shard `s`, in order. */
  ghost predicate Places(route: Route, m: Mutation, s: nat, at: seq<nat>) {
    && (forall k, l :: 0 <= k < l < |at| ==> at[k] < at[l])
    && forall i: nat :: i in at <==> i < Size(m) && route(if m.Upsert? then m.points[i].id else m.ids[i]) == s
  }

  ghost predicate ReportsOn(route: Route, m: Mutation, shards: seq<Coll>, c: ShardCommit) {
    && c.shard < |shards| && c.sequence == shards[c.shard].sequence + 1
    && exists at :: Places(route, m, c.shard, at) && |at| == c.affected > 0
  }

  /** In the order of the shards, one report for each of the first `n` that the request has something for. */
  ghost predicate Reports(route: Route, m: Mutation, shards: seq<Coll>, n: nat, commits: seq<ShardCommit>) {
    && (forall i, j :: 0 <= i < j < |commits| ==> commits[i].shard < commits[j].shard)
    && (forall i :: 0 <= i < |commits| ==> commits[i].shard < n && ReportsOn(route, m, shards, commits[i]))
    && forall id :: Mentions(m, id) && route(id) < n ==> Reported(commits, route(id))
  }

  ghost predicate Reported(commits: seq<ShardCommit>, s: nat) {
    exists i :: 0 <= i < |commits| && commits[i].shard == s
  }

  lemma PartPlaces(route: Route, m: Mutation, s: nat) returns (at: seq<nat>)
    ensures Places(route, m, s, at) && |at| == Size(PartFor(route, m, s))
  {
    match m
    case Upsert(points) =>
      at := PointsForPicks(route, points, s);
      forall i: nat ensures i in at <==> i < |points| && route(points[i].id) == s {
        if i in at { var k :| 0 <= k < |at| && at[k] == i; }
      }
    case Delete(ids) =>
      at := IdsForPicks(route, ids, s);
      forall i: nat ensures i in at <==> i < |ids| && route(ids[i]) == s {
        if i in at { var k :| 0 <= k < |at| && at[k] == i; }
      }
  }

  lemma ReportedStays(commits: seq<ShardCommit>, c: ShardCommit, s: nat)
    ensures Reported(commits + [c], s) <==> Reported(commits, s) || c.shard == s
  {
    var longer := commits + [c];
    if i :| 0 <= i < |commits| && commits[i].shard == s { assert longer[i].shard == s; }
    if c.shard == s { assert longer[|commits|].shard == s; }
  }

  lemma ReportNext(route: Route, m: Mutation, shards: seq<Coll>, s: nat, before: seq<ShardCommit>)
    requires s < |shards| && Reports(route, m, shards, s, before) && !IsEmpty(PartFor(route, m, s))
    ensures Reports(route, m, shards, s + 1,
                    before + [ShardCommit(s, shards[s].sequence + 1, Size(PartFor(route, m, s)))])
  {
    var at := PartPlaces(route, m, s);
    var c := ShardCommit(s, shards[s].sequence + 1, Size(PartFor(route, m, s)));
    assert ReportsOn(route, m, shards, c);
    forall id | Mentions(m, id) && route(id) < s + 1 ensures Reported(before + [c], route(id)) {
      ReportedStays(before, c, route(id));
    }
  }

  lemma NothingToReport(route: Route, m: Mutation, shards: seq<Coll>, s: nat, before: seq<ShardCommit>)
    requires s < |shards| && Reports(route, m, shards, s, before) && IsEmpty(PartFor(route, m, s))
    ensures Reports(route, m, shards, s + 1, before)
  {
    SomeMention(PartFor(route, m, s));
    forall id | Mentions(m, id) && route(id) < s + 1 ensures Reported(before, route(id)) {
      PartMentions(route, m, s, id);
    }
  }

  lemma NoReports(route: Route, m: Mutation, shards: seq<Coll>)
    ensures Reports(route, m, shards, 0, [])
  {
  }

  /** One turn of the list, whatever is known about the reports before it. */
  lemma CommitListNext(route: Route, m: Mutation, shards: seq<Coll>, s: nat)
    requires s < |shards| && Reports(route, m, shards, s, CommitList(route, m, shards, s))
    ensures Reports(route, m, shards, s + 1, CommitList(route, m, shards, s + 1))
  {
    var before := CommitList(route, m, shards, s);
    if IsEmpty(PartFor(route, m, s)) {
      NothingToReport(route, m, shards, s, before);
    } else {
      ReportNext(route, m, shards, s, before);
    }
  }

  ghost predicate ListReports(route: Route, m: Mutation, shards: seq<Coll>, n: nat)
    requires n <= |shards|
  {
    Reports(route, m, shards, n, CommitList(route, m, shards, n))
  }

  lemma {:induction false} CommitListReports(route: Route, m: Mutation, shards: seq<Coll>, n: nat)
    requires n <= |shards|
    ensures ListReports(route, m, shards, n)
  {
    if n == 0 {
      NoReports(route, m, shards);
    } else {
      CommitListReports(route, m, shards, n - 1);
      CommitListNext(route, m, shards, n - 1);
    }
  }

  /**
   What a request does to the shards and what it answers: an invalid one nothing and its
   error; a valid one is acknowledged by the shards before the first that refuses its part,
   and reports success exactly when none does.
   */
  ghost predicate Answered(
      cfg: Config, route: Route, m: Mutation, before: seq<System>, after: seq<System>, r: Result<seq<ShardCommit>>)
  {
    match Prepare(cfg, m)
    case Err(error) => r == Err(error) && after == before
    case Ok(prepared) =>
      && after == Acknowledged(cfg, route, m, before, Stopped(cfg, route, prepared, before))
      && Held(after) == Outcome(cfg, route, prepared, Held(before))
      && (r.Ok? <==> Succeeds(cfg, route, prepared, Held(before)))
      && (r.Ok? ==> r.value == CommitList(route, m, Held(before), |before|))
      && (r.Err? ==> Refusal(Held(before), Stopped(cfg, route, prepared, before), r.error))
  }

  /** The error of a shard that refuses: no sequence number left, or a part that cannot be encoded. */
  function RefusalOf(c: Coll): Error { if c.sequence >= U64_MAX then SequenceOverflow else InvalidQuery }

  ghost predicate Refusal(shards: seq<Coll>, s: nat, e: Error) { s < |shards| && e == RefusalOf(shards[s]) }

  /** The same without the steps of the shards: what they hold, what is reported, and when. */
  ghost predicate Fulfilled(
      cfg: Config, route: Route, m: Mutation, before: seq<Coll>, after: seq<Coll>, r: Result<seq<ShardCommit>>)
  {
    if Prepare(cfg, m).Err? then r == Err(Prepare(cfg, m).error) && after == before
    else exists reached: nat ::
      && reached <= |before| && Performed(cfg, route, m, before, after, reached)
      && (r.Ok? <==> reached == |before|)
      && (r.Ok? ==> Reports(route, m, before, |before|, r.value))
      && (r.Err? ==> Refusal(before, reached, r.error))
  }

  lemma AnsweredIsFulfilled(
      cfg: Config, route: Route, m: Mutation, before: seq<System>, after: seq<System>, r: Result<seq<ShardCommit>>)
    requires Answered(cfg, route, m, before, after, r)
    ensures Fulfilled(cfg, route, m, Held(before), Held(after), r)
  {
    match Prepare(cfg, m)
    case Err(_) =>
    case Ok(prepared) =>
      RequestMeans(cfg, route, m, prepared, Held(before));
      CommitListReports(route, m, Held(before), |before|);
      var reached := Stopped(cfg, route, prepared, before);
      assert Performed(cfg, route, m, Held(before), Held(after), reached);
  }

  /** Shards share no state. */
  ghost predicate Apart(shards: seq<PersistentCollection>) {
    forall s, t :: 0 <= s < t < |shards| ==> shards[s] != shards[t] && shards[s].inner != shards[t].inner
  }

  class ShardedCollection {
    const cfg: Config
    const route: Route
    const shards: seq<PersistentCollection>
    ghost var systems: seq<System>

    /** `systems` describes the open shards. */
    ghost predicate Linked()
      reads this, shards, set c <- shards :: c.inner
    {
      && |systems| == |shards| && Apart(shards)
      && forall s {:trigger Open(cfg, shards[s], systems[s])} ::
        0 <= s < |shards| ==> Open(cfg, shards[s], systems[s])
    }

    ghost predicate Valid()
      reads this, shards, set c <- shards :: c.inner
    {
      && Linked() && RoutesTo(route, |shards|)
      && Ready(cfg, route, systems)
    }

    constructor (
        cfg: Config, route: Route, shards: seq<PersistentCollection>, ghost systems: seq<System>)
      requires RoutesTo(route, |shards|) && |systems| == |shards|
      requires Apart(shards) && Ready(cfg, route, systems)
      requires forall s {:trigger Open(cfg, shards[s], systems[s])} ::
                 0 <= s < |shards| ==> Open(cfg, shards[s], systems[s])
      ensures Valid() && this.cfg == cfg && this.route == route && this.shards == shards && this.systems == systems
    {
      this.cfg, this.route, this.shards, this.systems := cfg, route, shards, systems;
    }

    /** A shard's own `upsert` or `delete`. */
    method CommitShard(s: nat, part: Mutation) returns (r: Result<nat>)
      requires Linked() && s < |shards|
      modifies this, shards[s], shards[s].inner
      ensures Linked()
      ensures r.Ok? <==> Takes(cfg, old(systems[s]), part)
      ensures systems == if r.Ok? then old(systems)[s := Written(cfg, old(systems[s]), part)] else old(systems)
      ensures r.Ok? ==> r.value == MemoryOf(old(systems[s])).coll.sequence + 1
      ensures r.Err? && Prepare(cfg, part).Ok? ==> r.error == RefusalOf(MemoryOf(old(systems[s])).coll)
    {
      assert Open(cfg, shards[s], systems[s]);
      match part {
        case Upsert(points) => r := shards[s].UpsertBatch(points);
        case Delete(ids) => r := shards[s].DeleteBatch(ids);
      }
      if r.Ok? {
        systems := systems[s := shards[s].system];
      }
    }

    /** One turn of the commit loop: a shard without a part is passed over. */
    method CommitNext(
        m: Mutation, ghost prepared: Mutation, ghost before: seq<System>, s: nat, part: Mutation)
      returns (r: Result<seq<ShardCommit>>)
      requires Linked() && s < |shards| == |before| && AllRunning(cfg, before)
      requires Prepare(cfg, m) == Ok(prepared) && part == PartFor(route, m, s)
      requires systems == Acknowledged(cfg, route, m, before, s)
      modifies this, shards[s], shards[s].inner
      ensures Linked()
      ensures r.Err? <==> Refuses(cfg, route, prepared, Held(before), s)
      ensures systems == Acknowledged(cfg, route, m, before, if r.Ok? then s + 1 else s)
      ensures r.Ok? ==> CommitList(route, m, Held(before), s + 1) == CommitList(route, m, Held(before), s) + r.value
      ensures r.Err? ==> r.error == RefusalOf(MemoryOf(before[s]).coll)
    {
      CommitTurn(cfg, route, m, prepared, before, s);
      CommitListStep(route, m, Held(before), s);
      if IsEmpty(part) {
        return Ok([]);
      }
      var committed := CommitShard(s, part);
      if committed.Err? {
        return Err(committed.error);
      }
      r := Ok([ShardCommit(s, committed.value, Size(part))]);
    }

    /** The commit loop; a refusing shard leaves the earlier ones committed. */
    method CommitParts(m: Mutation, ghost prepared: Mutation, parts: seq<Mutation>)
      returns (r: Result<seq<ShardCommit>>)
      requires Valid() && Prepare(cfg, m) == Ok(prepared)
      requires |parts| == |shards| && forall s :: 0 <= s < |parts| ==> parts[s] == PartFor(route, m, s)
      modifies this, shards, set c <- shards :: c.inner
      ensures Valid() && Held(systems) == Outcome(cfg, route, prepared, Held(old(systems)))
      ensures systems == Acknowledged(cfg, route, m, old(systems), Stopped(cfg, route, prepared, old(systems)))
      ensures r.Ok? <==> Succeeds(cfg, route, prepared, Held(old(systems)))
      ensures r.Ok? ==> r.value == CommitList(route, m, Held(old(systems)), |shards|)
      ensures r.Err? ==> Refusal(Held(old(systems)), Stopped(cfg, route, prepared, old(systems)), r.error)
    {
      ghost var before, stop := systems, Stopped(cfg, route, prepared, systems);
      var commits: seq<ShardCommit> := [];
      AcknowledgeNone(cfg, route, m, before);
      for s := 0 to |shards|
        invariant Linked() && s <= stop
        invariant systems == Acknowledged(cfg, route, m, before, s)
        invariant commits == CommitList(route, m, Held(before), s)
      {
        var next := CommitNext(m, prepared, before, s, parts[s]);
        if next.Err? {
          CommittedIsOutcome(cfg, route, m, prepared, before, s);
          return Err(next.error);
        }
        commits := commits + next.value;
      }
      CommittedIsOutcome(cfg, route, m, prepared, before, |shards|);
      r := Ok(commits);
    }

    /** An invalid request changes nothing; a valid one has its `Outcome`, and so may stop halfway. */
    method Upsert(points: seq<UpsertPoint>) returns (r: Result<seq<ShardCommit>>)
      requires Valid()
      modifies this, shards, set c <- shards :: c.inner
      ensures Valid() && Answered(cfg, route, Mutation.Upsert(points), old(systems), systems, r)
      ensures Fulfilled(cfg, route, Mutation.Upsert(points), Held(old(systems)), Held(systems), r)
    {
      var m := Mutation.Upsert(points);
      var prepared := Prepare(cfg, m);
      if prepared.Err? {
        r := Err(prepared.error);
        AnsweredIsFulfilled(cfg, route, m, systems, systems, r);
        return;
      }
      var batches := CutPoints(route, points, |shards|);
      var parts := seq(|batches|, s requires 0 <= s < |batches| => Mutation.Upsert(batches[s]));
      r := CommitParts(m, prepared.value, parts);
      AnsweredIsFulfilled(cfg, route, m, old(systems), systems, r);
    }

    method Delete(ids: seq<Id>) returns (r: Result<seq<ShardCommit>>)
      requires Valid()
      modifies this, shards, set c <- shards :: c.inner
      ensures Valid() && Answered(cfg, route, Mutation.Delete(ids), old(systems), systems, r)
      ensures Fulfilled(cfg, route, Mutation.Delete(ids), Held(old(systems)), Held(systems), r)
    {
      var m := Mutation.Delete(ids);
      var prepared := Prepare(cfg, m);
      if prepared.Err? {
        r := Err(prepared.error);
        AnsweredIsFulfilled(cfg, route, m, systems, systems, r);
        return;
      }
      var batches := CutIds(route, ids, |shards|);
      var parts := seq(|batches|, s requires 0 <= s < |batches| => Mutation.Delete(batches[s]));
      r := CommitParts(m, prepared.value, parts);
      AnsweredIsFulfilled(cfg, route, m, old(systems), systems, r);
    }

    /** `found[s]` is what the graphs of shard `s` return when there is no filter. */
    method Search(query: Vector, k: nat, filter: Option<Filter>, ef: nat, found: seq<seq<set<Id>>>)
      returns (r: Result<seq<Hit>>)
      requires Valid() && shards != [] && |found| == |shards|
      requires forall s :: 0 <= s < |shards| ==> |found[s]| == |shards[s].indexes|
      ensures r.Err? <==> ef < k || CheckQuery(cfg, k, query).Err?
      ensures r.Ok? ==>
        Merged(MemoriesOf(systems), filter, found, ScoreBy(cfg, CheckQuery(cfg, k, query).value), k, r.value)
      ensures r.Ok? && filter.Some? ==>
        var all, q := Together(route, Held(systems)), cfg.prepare(query).value;
        BestOf(all, all.Keys, filter, cfg.score, q, k, r.value)
    {
      assert Contents(MemoriesOf(systems)) == Held(systems);
      forall s | 0 <= s < |shards| ensures Serves(cfg, shards[s], MemoriesOf(systems)[s], found[s]) {
        assert Open(cfg, shards[s], systems[s]) && Running(cfg, systems[s]);
      }
      r := SearchShards(cfg, route, shards, MemoriesOf(systems), query, k, filter, ef, found);
    }
  }

  /** The number of shards that committed before the request ended. */
  ghost function Stopped(cfg: Config, route: Route, prepared: Mutation, systems: seq<System>): nat {
    Stop(cfg, route, prepared, Held(systems), |systems|)
  }

  lemma AcknowledgeNone(cfg: Config, route: Route, m: Mutation, systems: seq<System>)
    ensures Acknowledged(cfg, route, m, systems, 0) == systems
  {
  }

  lemma CommittedIsOutcome(cfg: Config, route: Route, m: Mutation, prepared: Mutation, systems: seq<System>, n: nat)
    requires Prepare(cfg, m) == Ok(prepared) && n <= Stopped(cfg, route, prepared, systems)
    requires n < |systems| ==> Refuses(cfg, route, prepared, Held(systems), n)
    requires Ready(cfg, route, systems)
    ensures n == Stopped(cfg, route, prepared, systems)
    ensures var after := Acknowledged(cfg, route, m, systems, n);
      && Held(after) == Outcome(cfg, route, prepared, Held(systems)) && Ready(cfg, route, after)
  {
    forall s | 0 <= s < |systems| ensures Up(systems[s]) && systems[s].phase.Idle? {
      assert Running(cfg, systems[s]);
    }
    AcknowledgedHold(cfg, route, m, prepared, systems, n);
    AcknowledgedRun(cfg, route, m, systems, n);
    OutcomeStaysHome(cfg, route, prepared, Held(systems));
  }
}
