/**
 Searching all shards: each shard answers with its own best `k`, by its metadata
 index if there is a filter and by its graphs if not, and the lists are merged.
 */
module ShardedSearch {
  import opened Base
  import opened Filters
  import opened Collections
  import opened Durability
  import opened CrashSafety
  import opened Ranking
  import opened TopK
  import opened CollectionStore
  import opened PersistentCollections
  import opened Routing
  import opened Sharding

  // ----- the hits of all shards ------------------------------------------

  /** Every hit of the first `n` shards. */
  ghost function ShardHits(shards: seq<Coll>, n: nat, filter: Option<Filter>, score: Vector -> int): set<Hit>
    requires n <= |shards|
  {
    set s: nat, h {:trigger h in AllHits(shards[s].points, filter, score)} |
      s < n && h in AllHits(shards[s].points, filter, score) :: h
  }

  lemma HitIsAtHome(route: Route, shards: seq<Coll>, s: nat, filter: Option<Filter>, score: Vector -> int, h: Hit)
    requires AtHome(route, shards) && s < |shards| && h in AllHits(shards[s].points, filter, score)
    ensures route(h.id) == s && h.id in shards[s].points && h == HitOf(shards[s].points[h.id], score)
  {
    var id :| id in shards[s].points && HitOf(shards[s].points[id], score) == h;
  }

  lemma ShardHitsAreOnePerId(route: Route, shards: seq<Coll>, n: nat, filter: Option<Filter>, score: Vector -> int)
    requires AtHome(route, shards) && n <= |shards|
    ensures OnePerId(ShardHits(shards, n, filter, score))
  {
    forall a, b | a in ShardHits(shards, n, filter, score) && b in ShardHits(shards, n, filter, score) && a.id == b.id
      ensures a == b
    {
      var s: nat :| s < n && a in AllHits(shards[s].points, filter, score);
      var t: nat :| t < n && b in AllHits(shards[t].points, filter, score);
      HitIsAtHome(route, shards, s, filter, score, a);
      HitIsAtHome(route, shards, t, filter, score, b);
    }
  }

  ghost function AllIds(shards: seq<Coll>): set<Id> {
    set s: nat, id {:trigger id in shards[s].points} | s < |shards| && id in shards[s].points :: id
  }

  /** The points of all shards in one map. */
  ghost function Together(route: Route, shards: seq<Coll>): Points
    requires AtHome(route, shards)
  {
    map id | id in AllIds(shards) :: PointOf(route, shards, id)
  }

  ghost function PointOf(route: Route, shards: seq<Coll>, id: Id): StoredPoint
    requires AtHome(route, shards) && id in AllIds(shards)
  {
    var s: nat :| s < |shards| && id in shards[s].points;
    shards[route(id)].points[id]
  }

  lemma ShardHitsTogether(route: Route, shards: seq<Coll>, filter: Option<Filter>, score: Vector -> int)
    requires AtHome(route, shards)
    ensures WellKeyed(Together(route, shards))
    ensures ShardHits(shards, |shards|, filter, score) == AllHits(Together(route, shards), filter, score)
  {
    var all := Together(route, shards);
    forall h | h in ShardHits(shards, |shards|, filter, score) ensures h in AllHits(all, filter, score) {
      var s: nat :| s < |shards| && h in AllHits(shards[s].points, filter, score);
      HitIsAtHome(route, shards, s, filter, score, h);
      assert all[h.id] == shards[s].points[h.id];
    }
    forall h | h in AllHits(all, filter, score) ensures h in ShardHits(shards, |shards|, filter, score) {
      var id :| id in all && Passes(filter, all[id]) && HitOf(all[id], score) == h;
      var s: nat :| s < |shards| && id in shards[s].points;
      assert all[id] == shards[s].points[id];
      assert h in AllHits(shards[s].points, filter, score);
    }
  }

  // ----- gathering the shards' lists -------------------------------------

  /** Lists of the shards, one after the other. */
  ghost predicate Gathered(shards: seq<Coll>, n: nat, filter: Option<Filter>, score: Vector -> int, hits: seq<Hit>) {
    n <= |shards| && DistinctIds(hits) && Elements(hits) <= ShardHits(shards, n, filter, score)
  }

  /** What they leave out is beaten by `k` of the hits they hold. */
  ghost predicate Covers(
      shards: seq<Coll>, n: nat, filter: Option<Filter>, score: Vector -> int, k: nat, hits: seq<Hit>)
    requires n <= |shards|
  {
    forall h :: h in ShardHits(shards, n, filter, score) && h !in hits ==> Dominated(h, Elements(hits), k)
  }

  lemma DominatedStays(h: Hit, some: set<Hit>, more: set<Hit>, k: nat)
    requires Dominated(h, some, k) && some <= more
    ensures Dominated(h, more, k)
  {
    var better :| Beats(better, h) && better <= some && |better| == k;
    assert Beats(better, h) && better <= more;
  }

  lemma ShardHitsNext(shards: seq<Coll>, n: nat, filter: Option<Filter>, score: Vector -> int)
    requires n < |shards|
    ensures ShardHits(shards, n + 1, filter, score)
      == ShardHits(shards, n, filter, score) + AllHits(shards[n].points, filter, score)
  {
  }

  lemma GatherNext(
      route: Route, shards: seq<Coll>, n: nat, filter: Option<Filter>, score: Vector -> int,
      hits: seq<Hit>, local: seq<Hit>)
    requires AtHome(route, shards) && n < |shards| && Gathered(shards, n, filter, score, hits)
    requires Ranked(local) && Elements(local) <= AllHits(shards[n].points, filter, score)
    ensures Gathered(shards, n + 1, filter, score, hits + local)
  {
    ShardHitsNext(shards, n, filter, score);
    ElementsConcat(hits, local);
    forall i, j | 0 <= i < j < |hits + local| ensures (hits + local)[i].id != (hits + local)[j].id {
      if j >= |hits| {
        var b := local[j - |hits|];
        assert b in Elements(local);
        HitIsAtHome(route, shards, n, filter, score, b);
        if i < |hits| {
          assert hits[i] in Elements(hits);
          var s: nat :| s < n && hits[i] in AllHits(shards[s].points, filter, score);
          HitIsAtHome(route, shards, s, filter, score, hits[i]);
        } else {
          var a := local[i - |hits|];
          assert a in Elements(local) && Before(a, b);
          HitIsAtHome(route, shards, n, filter, score, a);
          BeforeIrreflexive(a);
        }
      }
    }
  }

  lemma CoverNext(
      shards: seq<Coll>, n: nat, filter: Option<Filter>, score: Vector -> int, k: nat, hits: seq<Hit>, local: seq<Hit>)
    requires n < |shards| && Covers(shards, n, filter, score, k, hits)
    requires IsTopK(local, AllHits(shards[n].points, filter, score), k)
    ensures Covers(shards, n + 1, filter, score, k, hits + local)
  {
    var all, mine, both := ShardHits(shards, n, filter, score), AllHits(shards[n].points, filter, score), hits + local;
    ShardHitsNext(shards, n, filter, score);
    ElementsConcat(hits, local);
    forall h | h in all + mine && h !in both ensures Dominated(h, Elements(both), k) {
      if h in all {
        DominatedStays(h, Elements(hits), Elements(both), k);
      } else {
        DroppedIsDominated(local, mine, k, h, Elements(both));
      }
    }
  }

  lemma SortedIsRanked(hits: seq<Hit>, sorted: seq<Hit>)
    requires DistinctIds(hits) && Sorted(sorted) && multiset(sorted) == multiset(hits)
    ensures Ranked(sorted) && Elements(sorted) == Elements(hits)
  {
    forall h ensures h in sorted <==> h in hits { assert h in multiset(sorted) <==> h in multiset(hits); }
    forall i, j | 0 <= i < j < |sorted| ensures Before(sorted[i], sorted[j]) {
      DistinctAfterSort(hits, sorted, i, j);
      BeforeTotal(sorted[i], sorted[j]);
    }
  }

  lemma DistinctAfterSort(hits: seq<Hit>, sorted: seq<Hit>, i: nat, j: nat)
    requires DistinctIds(hits) && multiset(sorted) == multiset(hits) && i < j < |sorted|
    ensures sorted[i].id != sorted[j].id
  {
    var a, b := sorted[i], sorted[j];
    assert a in multiset(hits) && b in multiset(hits);
    if a.id == b.id {
      assert a == b;
      assert sorted == sorted[..j] + [b] + sorted[j + 1..];
      assert sorted[..j][i] == a;
      assert multiset(sorted)[a] >= 2;
      OnceOnly(hits, a);
      assert false;
    }
  }

  lemma {:induction false} OnceOnly(hits: seq<Hit>, h: Hit)
    requires DistinctIds(hits)
    ensures multiset(hits)[h] <= 1
    decreases |hits|
  {
    if hits != [] {
      var init, last := hits[..|hits| - 1], hits[|hits| - 1];
      OnceOnly(init, h);
      assert hits == init + [last];
      if h == last {
        assert h !in init;
        assert h !in multiset(init);
      }
    }
  }

  // ----- the search ------------------------------------------------------

  /** Nothing is missing from a shard's list: there is a filter, or its graphs miss nothing. */
  ghost predicate ShardIsComplete(
      mem: Memory, filter: Option<Filter>, found: seq<set<Id>>, score: Vector -> int, k: nat)
  {
    filter.Some? || forall i :: 0 <= i < |found| ==> NothingMissed(mem, i, found[i], score, k)
  }

  ghost function Contents(mems: seq<Memory>): seq<Coll> {
    seq(|mems|, s requires 0 <= s < |mems| => mems[s].coll)
  }

  /** An open shard in memory state `mem`; `found` is what its graphs will return. */
  ghost predicate Serves(cfg: Config, shard: PersistentCollection, mem: Memory, found: seq<set<Id>>)
    reads shard, shard.inner
  {
    && shard.cfg == cfg && shard.Valid() && Inv(cfg, shard.system)
    && shard.View() == mem && |found| == |shard.indexes|
  }

  /**
   The merged answer: at most `k` live hits in order, and exactly the best `k` of all
   shards when each shard's own list is complete.
   */
  ghost predicate Merged(
      mems: seq<Memory>, filter: Option<Filter>, found: seq<seq<set<Id>>>, score: Vector -> int, k: nat, r: seq<Hit>)
    requires |found| == |mems|
  {
    var all := ShardHits(Contents(mems), |mems|, filter, score);
    && Ranked(r) && |r| <= k && Elements(r) <= all
    && ((forall s :: 0 <= s < |mems| ==> ShardIsComplete(mems[s], filter, found[s], score, k)) ==> IsTopK(r, all, k))
  }

  /** The lists of the first `n` shards are gathered. */
  ghost predicate GatheredFrom(
      mems: seq<Memory>, n: nat, filter: Option<Filter>, found: seq<seq<set<Id>>>, score: Vector -> int, k: nat,
      hits: seq<Hit>)
    requires n <= |found| == |mems|
  {
    && Gathered(Contents(mems), n, filter, score, hits)
    && ((forall s :: 0 <= s < n ==> ShardIsComplete(mems[s], filter, found[s], score, k)) ==>
          Covers(Contents(mems), n, filter, score, k, hits))
  }

  /** What a shard promises of its own list. */
  ghost predicate LocalAnswer(
      mem: Memory, filter: Option<Filter>, found: seq<set<Id>>, score: Vector -> int, k: nat, r: seq<Hit>)
  {
    var all := AllHits(mem.coll.points, filter, score);
    && Ranked(r) && Elements(r) <= all
    && (ShardIsComplete(mem, filter, found, score, k) ==> IsTopK(r, all, k))
  }

  lemma GatherStep(
      route: Route, mems: seq<Memory>, n: nat, filter: Option<Filter>, found: seq<seq<set<Id>>>, score: Vector -> int,
      k: nat, hits: seq<Hit>, local: seq<Hit>)
    requires n < |found| == |mems| && AtHome(route, Contents(mems))
    requires GatheredFrom(mems, n, filter, found, score, k, hits)
    requires LocalAnswer(mems[n], filter, found[n], score, k, local)
    ensures GatheredFrom(mems, n + 1, filter, found, score, k, hits + local)
  {
    var shards := Contents(mems);
    GatherNext(route, shards, n, filter, score, hits, local);
    if forall s :: 0 <= s < n + 1 ==> ShardIsComplete(mems[s], filter, found[s], score, k) {
      assert ShardIsComplete(mems[n], filter, found[n], score, k);
      CoverNext(shards, n, filter, score, k, hits, local);
    }
  }

  /** Sorts the gathered hits and keeps the first `k`. */
  method Merge(
      ghost route: Route, ghost mems: seq<Memory>, ghost filter: Option<Filter>, ghost found: seq<seq<set<Id>>>,
      ghost score: Vector -> int, k: nat, hits: seq<Hit>)
    returns (r: seq<Hit>)
    requires |found| == |mems| && AtHome(route, Contents(mems))
    requires GatheredFrom(mems, |mems|, filter, found, score, k, hits)
    ensures Merged(mems, filter, found, score, k, r)
  {
    ghost var shards := Contents(mems);
    var sorted := SortHits(hits);
    SortedIsRanked(hits, sorted);
    PrefixIsTopK(sorted, k);
    r := sorted[..Min(k, |sorted|)];
    assert Elements(r) <= Elements(sorted);
    if Covers(shards, |shards|, filter, score, k, hits) {
      ShardHitsAreOnePerId(route, shards, |shards|, filter, score);
      TopKOfCandidates(r, Elements(hits), ShardHits(shards, |shards|, filter, score), k);
    }
  }

  /** With a filter the merged list is the best of all shards' points, in terms of points and scores alone. */
  lemma MergedIsBest(
      cfg: Config, route: Route, mems: seq<Memory>, filter: Option<Filter>, found: seq<seq<set<Id>>>, q: Vector,
      k: nat, r: seq<Hit>)
    requires |found| == |mems| && AtHome(route, Contents(mems)) && filter.Some?
    requires Merged(mems, filter, found, ScoreBy(cfg, q), k, r)
    ensures var all := Together(route, Contents(mems)); BestOf(all, all.Keys, filter, cfg.score, q, k, r)
  {
    var all := Together(route, Contents(mems));
    ShardHitsTogether(route, Contents(mems), filter, ScoreBy(cfg, q));
    TopKIsBest(cfg, all, all.Keys, filter, q, k, r);
  }

  /** One shard's list, by its own search. */
  method SearchShard(
      cfg: Config, shard: PersistentCollection, ghost mem: Memory, query: Vector, k: nat, filter: Option<Filter>,
      ef: nat, found: seq<set<Id>>)
    returns (r: Result<seq<Hit>>)
    requires Serves(cfg, shard, mem, found)
    ensures r.Err? <==> ef < k || CheckQuery(cfg, k, query).Err?
    ensures ef < k ==> r == Err(InvalidQuery)
    ensures ef >= k && CheckQuery(cfg, k, query).Err? ==> r == Err(CheckQuery(cfg, k, query).error)
    ensures r.Ok? ==> LocalAnswer(mem, filter, found, ScoreBy(cfg, CheckQuery(cfg, k, query).value), k, r.value)
  {
    r := shard.SearchWithEf(query, k, filter, ef, found);
  }

  /** `search` over at least one shard: a query error of any shard is the error of the search. */
  method SearchShards(
      cfg: Config, ghost route: Route, shards: seq<PersistentCollection>, ghost mems: seq<Memory>, query: Vector,
      k: nat, filter: Option<Filter>, ef: nat, found: seq<seq<set<Id>>>)
    returns (r: Result<seq<Hit>>)
    requires shards != [] && |mems| == |shards| == |found| && AtHome(route, Contents(mems))
    requires forall s :: 0 <= s < |shards| ==> Serves(cfg, shards[s], mems[s], found[s])
    ensures r.Err? <==> ef < k || CheckQuery(cfg, k, query).Err?
    ensures k == 0 ==> r == Err(InvalidQuery)
    ensures k > 0 && |query| != cfg.dimension ==> r == Err(InvalidDimension)
    ensures k > 0 && |query| == cfg.dimension && ef < k ==> r == Err(InvalidQuery)
    ensures k > 0 && |query| == cfg.dimension && ef >= k && cfg.prepare(query).None? ==> r == Err(InvalidVector)
    ensures r.Ok? ==> Merged(mems, filter, found, ScoreBy(cfg, CheckQuery(cfg, k, query).value), k, r.value)
    ensures r.Ok? && filter.Some? ==>
      var all, q := Together(route, Contents(mems)), cfg.prepare(query).value;
      BestOf(all, all.Keys, filter, cfg.score, q, k, r.value)
  {
    if k == 0 {
      return Err(InvalidQuery);
    }
    if |query| != cfg.dimension {
      return Err(InvalidDimension);
    }
    ghost var q := CheckQuery(cfg, k, query);
    ghost var score := ScoreBy(cfg, if q.Ok? then q.value else query);
    var hits: seq<Hit> := [];
    for s := 0 to |shards|
      invariant s > 0 ==> ef >= k && q.Ok?
      invariant GatheredFrom(mems, s, filter, found, score, k, hits)
    {
      var local := SearchShard(cfg, shards[s], mems[s], query, k, filter, ef, found[s]);
      if local.Err? {
        return Err(local.error);
      }
      GatherStep(route, mems, s, filter, found, score, k, hits, local.value);
      hits := hits + local.value;
    }
    var best := Merge(route, mems, filter, found, score, k, hits);
    r := Ok(best);
    if filter.Some? { MergedIsBest(cfg, route, mems, filter, found, q.value, k, best); }
  }

  // ----- the same answers as one collection ------------------------------

  /** A hit without the sequence number, which counts a shard's own batches. */
  function Plain(h: Hit): Hit { h.(sequence := 0) }

  function PlainList(r: seq<Hit>): seq<Hit> { seq(|r|, i requires 0 <= i < |r| => Plain(r[i])) }

  function PlainSet(all: set<Hit>): set<Hit> { set h | h in all :: Plain(h) }

  lemma {:induction false} PlainSize(all: set<Hit>)
    requires OnePerId(all)
    ensures |PlainSet(all)| == |all|
    decreases |all|
  {
    if all == {} {
      assert PlainSet(all) == {};
    } else {
      var h :| h in all;
      PlainSize(all - {h});
      assert PlainSet(all) == PlainSet(all - {h}) + {Plain(h)};
      assert forall x :: x in all - {h} ==> x.id != h.id;
    }
  }

  /** Ranking does not look at sequence numbers. */
  lemma PlainTopK(r: seq<Hit>, all: set<Hit>, k: nat)
    requires OnePerId(all) && IsTopK(r, all, k)
    ensures OnePerId(PlainSet(all)) && IsTopK(PlainList(r), PlainSet(all), k)
  {
    PlainSize(all);
    forall x | x in Elements(PlainList(r)) ensures x in PlainSet(all) {
      var i :| 0 <= i < |r| && PlainList(r)[i] == x;
      assert r[i] in Elements(r);
    }
    forall x | x in PlainSet(all) && x !in PlainList(r) ensures AllBefore(PlainList(r), x) {
      var h :| h in all && Plain(h) == x;
      assert h !in r by {
        if h in r { PlainStays(r, h); }
      }
      assert AllBefore(r, h);
    }
  }

  lemma PlainStays(r: seq<Hit>, h: Hit)
    requires h in r
    ensures Plain(h) in PlainList(r)
  {
    var i :| 0 <= i < |r| && r[i] == h;
    assert PlainList(r)[i] == Plain(h);
  }

  lemma ContentAgrees(route: Route, shards: seq<Coll>, one: Coll, id: Id)
    requires Refines(route, shards, one)
    ensures SameContent(shards[route(id)].points, one.points, id)
  {
    assert id in one.points || id !in one.points;
  }

  lemma ShardHitHasTwin(
      route: Route, shards: seq<Coll>, one: Coll, filter: Option<Filter>, score: Vector -> int, h: Hit)
    requires Refines(route, shards, one) && AtHome(route, shards)
    requires h in ShardHits(shards, |shards|, filter, score)
    ensures Plain(h) in PlainSet(AllHits(one.points, filter, score))
  {
    var s: nat :| s < |shards| && h in AllHits(shards[s].points, filter, score);
    var id :| id in shards[s].points && Passes(filter, shards[s].points[id]) && HitOf(shards[s].points[id], score) == h;
    assert route(id) == s;
    ContentAgrees(route, shards, one, id);
    var twin := HitOf(one.points[id], score);
    assert twin in AllHits(one.points, filter, score) && Plain(twin) == Plain(h);
  }

  lemma HitHasShardTwin(
      route: Route, shards: seq<Coll>, one: Coll, filter: Option<Filter>, score: Vector -> int, h: Hit)
    requires Refines(route, shards, one) && h in AllHits(one.points, filter, score)
    ensures Plain(h) in PlainSet(ShardHits(shards, |shards|, filter, score))
  {
    var id :| id in one.points && Passes(filter, one.points[id]) && HitOf(one.points[id], score) == h;
    var s := route(id);
    ContentAgrees(route, shards, one, id);
    var twin := HitOf(shards[s].points[id], score);
    assert twin in AllHits(shards[s].points, filter, score) && Plain(twin) == Plain(h);
    assert twin in ShardHits(shards, |shards|, filter, score);
  }

  lemma PlainHitsAgree(route: Route, shards: seq<Coll>, one: Coll, filter: Option<Filter>, score: Vector -> int)
    requires Refines(route, shards, one) && AtHome(route, shards)
    ensures PlainSet(ShardHits(shards, |shards|, filter, score)) == PlainSet(AllHits(one.points, filter, score))
  {
    var many, single := ShardHits(shards, |shards|, filter, score), AllHits(one.points, filter, score);
    forall x | x in PlainSet(many) ensures x in PlainSet(single) {
      var h :| h in many && Plain(h) == x;
      ShardHitHasTwin(route, shards, one, filter, score, h);
    }
    forall x | x in PlainSet(single) ensures x in PlainSet(many) {
      var h :| h in single && Plain(h) == x;
      HitHasShardTwin(route, shards, one, filter, score, h);
    }
  }

  /** Merging the shards' best hits gives the best hits of the one collection. */
  lemma MergedSearchIsExact(
      route: Route, shards: seq<Coll>, one: Coll, filter: Option<Filter>, score: Vector -> int, k: nat,
      merged: seq<Hit>, exact: seq<Hit>)
    requires Refines(route, shards, one) && AtHome(route, shards) && WellKeyed(one.points)
    requires IsTopK(merged, ShardHits(shards, |shards|, filter, score), k)
    requires IsTopK(exact, AllHits(one.points, filter, score), k)
    ensures PlainList(merged) == PlainList(exact)
  {
    ShardHitsAreOnePerId(route, shards, |shards|, filter, score);
    HitsAreOnePerId(one.points, one.points.Keys, filter, score);
    PlainTopK(merged, ShardHits(shards, |shards|, filter, score), k);
    PlainTopK(exact, AllHits(one.points, filter, score), k);
    PlainHitsAgree(route, shards, one, filter, score);
    TopKIsUnique(PlainList(merged), PlainList(exact), PlainSet(AllHits(one.points, filter, score)), k);
  }

  lemma {:induction false} RunIsWellKeyed(cfg: Config, route: Route, shards: nat, ms: seq<Mutation>, n: nat)
    requires n <= |ms|
    ensures WellKeyed(RunOne(cfg, route, shards, ms, n).points)
  {
    if n > 0 {
      RunIsWellKeyed(cfg, route, shards, ms, n - 1);
      var m := Prepare(cfg, ms[n - 1]);
      if m.Ok? {
        var state := RunSharded(cfg, route, shards, ms, n - 1);
        StepIsWellKeyed(
          RunOne(cfg, route, shards, ms, n - 1), PartBelow(route, m.value, Stop(cfg, route, m.value, state, shards)));
      }
    }
  }

  lemma StepIsWellKeyed(one: Coll, m: Mutation)
    requires WellKeyed(one.points)
    ensures WellKeyed(ApplyIfAny(one, m).points)
  {
    if !IsEmpty(m) {
      forall id | id in ApplyIfAny(one, m).points ensures ApplyIfAny(one, m).points[id].id == id {
        ApplyOn(one, m, one.sequence + 1, id);
      }
    }
  }

  lemma RefinedIsAtHome(route: Route, shards: seq<Coll>, one: Coll)
    requires Refines(route, shards, one) && WellKeyed(one.points)
    ensures AtHome(route, shards)
  {
    forall s: nat, id | s < |shards| && id in shards[s].points
      ensures route(id) == s && shards[s].points[id].id == id
    {
      ContentAgrees(route, shards, one, id);
    }
  }

  /**
   After any requests, and whatever was refused, the merged answer of shards whose
   lists are complete is the answer of the one collection that got the same parts.
   */
  lemma ShardedSearchIsExact(
      cfg: Config, route: Route, n: nat, ms: seq<Mutation>, mems: seq<Memory>, filter: Option<Filter>,
      found: seq<seq<set<Id>>>, score: Vector -> int, k: nat, merged: seq<Hit>, exact: seq<Hit>)
    requires RoutesTo(route, n) && |found| == |mems| && Contents(mems) == RunSharded(cfg, route, n, ms, |ms|)
    requires forall s :: 0 <= s < |mems| ==> ShardIsComplete(mems[s], filter, found[s], score, k)
    requires Merged(mems, filter, found, score, k, merged)
    requires IsTopK(exact, AllHits(RunOne(cfg, route, n, ms, |ms|).points, filter, score), k)
    ensures AtHome(route, Contents(mems))
    ensures PlainList(merged) == PlainList(exact)
  {
    var shards, one := RunSharded(cfg, route, n, ms, |ms|), RunOne(cfg, route, n, ms, |ms|);
    RunRefines(cfg, route, n, ms, |ms|);
    RunIsWellKeyed(cfg, route, n, ms, |ms|);
    RefinedIsAtHome(route, shards, one);
    MergedSearchIsExact(route, shards, one, filter, score, k, merged, exact);
  }
}
