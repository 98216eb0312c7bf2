/**
 What a sharded request does and reports, in terms of the request itself: every
 point or ID goes to the shard its ID hashes to and to no other, and a shard that
 commits holds of each of its IDs the last point that the request has for it.
 */
module ShardedRequests {
  import opened Base
  import opened Collections
  import opened Routing
  import opened Sharding

  // ----- cutting ---------------------------------------------------------

  /** `part` lists, in order, the items at the places `at`, and these are the places of shard `s`. */
  ghost predicate Picks<T>(idOf: T -> Id, route: Route, items: seq<T>, s: nat, part: seq<T>, at: seq<nat>) {
    && |at| == |part|
    && (forall k :: 0 <= k < |at| ==> at[k] < |items| && items[at[k]] == part[k] && route(idOf(items[at[k]])) == s)
    && (forall k, l :: 0 <= k < l < |at| ==> at[k] < at[l])
    && (forall i :: 0 <= i < |items| && route(idOf(items[i])) == s ==> i in at)
  }

  function PointId(p: UpsertPoint): Id { p.id }

  function SameId(id: Id): Id { id }

  lemma PicksNext<T>(idOf: T -> Id, route: Route, items: seq<T>, s: nat, part: seq<T>, at: seq<nat>)
    requires items != [] && Picks(idOf, route, items[..|items| - 1], s, part, at)
    ensures var n := |items| - 1;
      if route(idOf(items[n])) == s then Picks(idOf, route, items, s, part + [items[n]], at + [n])
      else Picks(idOf, route, items, s, part, at)
  {
    var n := |items| - 1;
    var init := items[..n];
    forall k | 0 <= k < |at| ensures at[k] < n && items[at[k]] == part[k] && route(idOf(items[at[k]])) == s {
      assert init[at[k]] == items[at[k]];
    }
    forall i | 0 <= i < n && route(idOf(items[i])) == s ensures i in at {
      assert init[i] == items[i];
    }
  }

  lemma {:induction false} PointsForPicks(route: Route, points: seq<UpsertPoint>, s: nat) returns (at: seq<nat>)
    ensures Picks(PointId, route, points, s, PointsFor(route, points, s), at)
    decreases |points|
  {
    at := [];
    if points != [] {
      var n := |points| - 1;
      at := PointsForPicks(route, points[..n], s);
      PicksNext(PointId, route, points, s, PointsFor(route, points[..n], s), at);
      if route(points[n].id) == s { at := at + [n]; }
    }
  }

  lemma {:induction false} IdsForPicks(route: Route, ids: seq<Id>, s: nat) returns (at: seq<nat>)
    ensures Picks(SameId, route, ids, s, IdsFor(route, ids, s), at)
    decreases |ids|
  {
    at := [];
    if ids != [] {
      var n := |ids| - 1;
      at := IdsForPicks(route, ids[..n], s);
      PicksNext(SameId, route, ids, s, IdsFor(route, ids[..n], s), at);
      if route(ids[n]) == s { at := at + [n]; }
    }
  }

  // ----- committing ------------------------------------------------------

  lemma PartMentions(route: Route, m: Mutation, s: nat, id: Id)
    ensures Mentions(PartFor(route, m, s), id) <==> Mentions(m, id) && route(id) == s
  {
    match m
    case Upsert(points) =>
      var at := PointsForPicks(route, points, s);
      var part := PointsFor(route, points, s);
      if k :| 0 <= k < |part| && part[k].id == id { assert points[at[k]] == part[k]; }
      if i :| 0 <= i < |points| && points[i].id == id && route(id) == s {
        var k :| 0 <= k < |at| && at[k] == i;
        assert part[k] == points[i];
      }
    case Delete(ids) =>
      var at := IdsForPicks(route, ids, s);
      var part := IdsFor(route, ids, s);
      if k :| 0 <= k < |part| && part[k] == id { assert ids[at[k]] == part[k]; }
      if i :| 0 <= i < |ids| && ids[i] == id && route(id) == s {
        var k :| 0 <= k < |at| && at[k] == i;
        assert part[k] == ids[i];
      }
  }

  /** What shard `s` holds of `id` once it committed its part of the request `m`. */
  ghost predicate HoldsPart(cfg: Config, route: Route, m: Mutation, s: nat, before: Coll, after: Coll, id: Id) {
    if !Mentions(m, id) || route(id) != s then SameOn(before.points, after.points, id)
    else match m
      case Upsert(points) =>
        id in after.points && StoresPrepared(cfg, points, before.sequence + 1, id, after.points[id])
      case Delete(_) => id !in after.points
  }

  /** The number counts on if and only if the request has something for the shard. */
  ghost predicate Counts(route: Route, m: Mutation, s: nat, before: Coll, after: Coll) {
    after.sequence == if exists id :: Mentions(m, id) && route(id) == s then before.sequence + 1 else before.sequence
  }

  lemma SomeMention(m: Mutation)
    ensures IsEmpty(m) <==> forall id :: !Mentions(m, id)
  {
    if !IsEmpty(m) {
      var id := if m.Upsert? then m.points[0].id else m.ids[0];
      assert Mentions(m, id);
    }
  }

  lemma CommitCounts(cfg: Config, route: Route, m: Mutation, prepared: Mutation, s: nat, coll: Coll)
    requires Prepare(cfg, m) == Ok(prepared)
    ensures Counts(route, m, s, coll, CommitOn(route, prepared, s, coll))
  {
    var part := PartFor(route, m, s);
    PartOfPrepared(cfg, route, m, prepared, s);
    SomeMention(part);
    forall id ensures Mentions(part, id) <==> Mentions(m, id) && route(id) == s { PartMentions(route, m, s, id); }
  }

  lemma PreparedMentions(cfg: Config, m: Mutation, prepared: Mutation, id: Id)
    requires Prepare(cfg, m) == Ok(prepared)
    ensures Mentions(prepared, id) <==> Mentions(m, id)
  {
    PrepareTouches(cfg, m);
    assert Mentions(m, id) <==> id in Touched(m);
    assert Mentions(prepared, id) <==> id in Touched(prepared);
  }

  lemma CommitHolds(cfg: Config, route: Route, m: Mutation, prepared: Mutation, s: nat, coll: Coll, id: Id)
    requires Prepare(cfg, m) == Ok(prepared)
    ensures HoldsPart(cfg, route, m, s, coll, CommitOn(route, prepared, s, coll), id)
  {
    var part, at := PartFor(route, prepared, s), coll.sequence + 1;
    PreparedMentions(cfg, m, prepared, id);
    PartMentions(route, prepared, s, id);
    SomeMention(part);
    ApplyMeans(coll, part, at, id);
    if Mentions(m, id) && route(id) == s && m.Upsert? {
      PartAppliesTheSame(route, coll, coll, prepared, at, at, id);
      UpsertMeans(cfg, coll, m.points, at);
      assert StoresPrepared(cfg, m.points, at, id, Apply(coll, prepared, at).points[id]);
    }
  }

  /** The shards that were reached hold what the request says; the others are as before. */
  ghost predicate Performed(
      cfg: Config, route: Route, m: Mutation, before: seq<Coll>, after: seq<Coll>, reached: nat)
  {
    && |after| == |before|
    && (forall s: nat {:trigger after[s]} :: s < reached && s < |before| ==>
          Counts(route, m, s, before[s], after[s])
          && forall id {:trigger HoldsPart(cfg, route, m, s, before[s], after[s], id)} ::
               HoldsPart(cfg, route, m, s, before[s], after[s], id))
    && (forall s: nat {:trigger after[s]} :: reached <= s < |before| ==> after[s] == before[s])
  }

  /** A validated request reaches every shard before the first that refuses its part. */
  lemma RequestMeans(cfg: Config, route: Route, m: Mutation, prepared: Mutation, shards: seq<Coll>)
    requires Prepare(cfg, m) == Ok(prepared)
    ensures Performed(cfg, route, m, shards, Outcome(cfg, route, prepared, shards),
                      Stop(cfg, route, prepared, shards, |shards|))
  {
    var after, stop := Outcome(cfg, route, prepared, shards), Stop(cfg, route, prepared, shards, |shards|);
    forall s: nat | s < stop ensures Counts(route, m, s, shards[s], after[s])
      && forall id {:trigger HoldsPart(cfg, route, m, s, shards[s], after[s], id)} ::
           HoldsPart(cfg, route, m, s, shards[s], after[s], id)
    {
      CommitCounts(cfg, route, m, prepared, s, shards[s]);
      forall id ensures HoldsPart(cfg, route, m, s, shards[s], after[s], id) {
        CommitHolds(cfg, route, m, prepared, s, shards[s], id);
      }
    }
  }
}
