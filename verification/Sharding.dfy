/**
 A collection split over shards. A request is validated as a whole, cut into one
 batch per shard and committed shard by shard; a shard may still refuse its batch,
 and then the shards before it have committed theirs.
 */
module Sharding {
  import opened Base
  import opened Filters
  import opened Collections
  import opened WalCodec
  import opened PersistentCollections
  import opened Routing

  // ----- cutting batches -------------------------------------------------

  /** The points of shard `s`, in their order. */
  function PointsFor(route: Route, points: seq<UpsertPoint>, s: nat): seq<UpsertPoint>
    decreases |points|
  {
    if points == [] then []
    else
      var init, last := PointsFor(route, points[..|points| - 1], s), points[|points| - 1];
      if route(last.id) == s then init + [last] else init
  }

  function IdsFor(route: Route, ids: seq<Id>, s: nat): seq<Id>
    decreases |ids|
  {
    if ids == [] then []
    else
      var init, last := IdsFor(route, ids[..|ids| - 1], s), ids[|ids| - 1];
      if route(last) == s then init + [last] else init
  }

  /** The part of a batch that concerns shard `s`. */
  function PartFor(route: Route, m: Mutation, s: nat): Mutation {
    match m
    case Upsert(points) => Upsert(PointsFor(route, points, s))
    case Delete(ids) => Delete(IdsFor(route, ids, s))
  }

  predicate IsEmpty(m: Mutation) { if m.Upsert? then m.points == [] else m.ids == [] }

  /** The loop that files each point under its shard. */
  method CutPoints(route: Route, points: seq<UpsertPoint>, n: nat) returns (batches: seq<seq<UpsertPoint>>)
    requires RoutesTo(route, n)
    ensures |batches| == n && forall s :: 0 <= s < n ==> batches[s] == PointsFor(route, points, s)
  {
    batches := seq(n, s => []);
    for i := 0 to |points|
      invariant |batches| == n && forall s :: 0 <= s < n ==> batches[s] == PointsFor(route, points[..i], s)
    {
      assert points[..i + 1][..i] == points[..i];
      var s := route(points[i].id);
      batches := batches[s := batches[s] + [points[i]]];
    }
    assert points[..|points|] == points;
  }

  method CutIds(route: Route, ids: seq<Id>, n: nat) returns (batches: seq<seq<Id>>)
    requires RoutesTo(route, n)
    ensures |batches| == n && forall s :: 0 <= s < n ==> batches[s] == IdsFor(route, ids, s)
  {
    batches := seq(n, s => []);
    for i := 0 to |ids|
      invariant |batches| == n && forall s :: 0 <= s < n ==> batches[s] == IdsFor(route, ids[..i], s)
    {
      assert ids[..i + 1][..i] == ids[..i];
      var s := route(ids[i]);
      batches := batches[s := batches[s] + [ids[i]]];
    }
    assert ids[..|ids|] == ids;
  }

  /** Preparing a shard's points is taking the shard's points of the prepared batch. */
  lemma {:induction false} PartIsPrepared(cfg: Config, route: Route, points: seq<UpsertPoint>, s: nat)
    requires PrepareBatch(cfg, points).Ok?
    ensures PrepareBatch(cfg, PointsFor(route, points, s))
      == Ok(PointsFor(route, PrepareBatch(cfg, points).value, s))
    decreases |points|
  {
    if points != [] {
      var init, last := points[..|points| - 1], points[|points| - 1];
      PartIsPrepared(cfg, route, init, s);
      var batch := PrepareBatch(cfg, points).value;
      assert batch[..|batch| - 1] == PrepareBatch(cfg, init).value;
      var part := PointsFor(route, points, s);
      if route(last.id) == s {
        assert part[..|part| - 1] == PointsFor(route, init, s) && part[|part| - 1] == last;
      }
    }
  }

  // ----- one collection and many -----------------------------------------

  /** The same vector and metadata under `id`, or nothing in both. */
  ghost predicate SameContent(a: Points, b: Points, id: Id) {
    && (id in a <==> id in b)
    && (id in a ==> a[id].id == b[id].id && a[id].vector == b[id].vector && a[id].metadata == b[id].metadata)
  }

  lemma {:induction false} PartPutsTheSame(
      route: Route, a: Points, b: Points, batch: seq<UpsertPoint>, i: nat, j: nat, id: Id)
    requires SameContent(a, b, id)
    ensures SameContent(PutAll(a, PointsFor(route, batch, route(id)), i), PutAll(b, batch, j), id)
    decreases |batch|
  {
    if batch != [] {
      var init, last := batch[..|batch| - 1], batch[|batch| - 1];
      PartPutsTheSame(route, a, b, init, i, j, id);
      var part := PointsFor(route, batch, route(id));
      if route(last.id) == route(id) {
        assert part[..|part| - 1] == PointsFor(route, init, route(id)) && part[|part| - 1] == last;
      }
    }
  }

  lemma {:induction false} IdsForHolds(route: Route, ids: seq<Id>, id: Id)
    ensures id in IdsFor(route, ids, route(id)) <==> id in ids
    decreases |ids|
  {
    if ids != [] {
      var init, last := ids[..|ids| - 1], ids[|ids| - 1];
      IdsForHolds(route, init, id);
      assert ids == init + [last];
    }
  }

  /** A shard's part does to its own IDs what the whole batch does to them. */
  lemma PartAppliesTheSame(route: Route, a: Coll, b: Coll, m: Mutation, i: nat, j: nat, id: Id)
    requires SameContent(a.points, b.points, id)
    ensures SameContent(Apply(a, PartFor(route, m, route(id)), i).points, Apply(b, m, j).points, id)
  {
    match m
    case Upsert(points) => PartPutsTheSame(route, a.points, b.points, points, i, j, id);
    case Delete(ids) => IdsForHolds(route, ids, id);
  }

  /** The shard after its part of a prepared batch; shards without a part are not called. */
  function CommitOn(route: Route, m: Mutation, s: nat, coll: Coll): Coll {
    var part := PartFor(route, m, s);
    if IsEmpty(part) then coll else Apply(coll, part, coll.sequence + 1)
  }

  lemma EmptyPartIsIdle(route: Route, m: Mutation, s: nat, coll: Coll, id: Id)
    requires IsEmpty(PartFor(route, m, s))
    ensures SameContent(coll.points, Apply(coll, PartFor(route, m, s), coll.sequence + 1).points, id)
  {
  }

  function CommitAll(route: Route, m: Mutation, shards: seq<Coll>): seq<Coll> {
    seq(|shards|, s requires 0 <= s < |shards| => CommitOn(route, m, s, shards[s]))
  }

  /** Shards hold their own IDs only, and together what `one` holds. */
  ghost predicate Refines(route: Route, shards: seq<Coll>, one: Coll) {
    && RoutesTo(route, |shards|)
    && (forall id {:trigger id in one.points} :: SameContent(shards[route(id)].points, one.points, id))
    && forall s: nat, id {:trigger id in shards[s].points} :: s < |shards| && id in shards[s].points ==> route(id) == s
  }

  /** Each shard stores its own IDs, each under its own key. */
  ghost predicate AtHome(route: Route, shards: seq<Coll>) {
    forall s: nat, id {:trigger id in shards[s].points} :: s < |shards| && id in shards[s].points ==>
      route(id) == s && shards[s].points[id].id == id
  }

  lemma {:induction false} PointsForStay(route: Route, points: seq<UpsertPoint>, s: nat, i: nat)
    requires i < |PointsFor(route, points, s)|
    ensures route(PointsFor(route, points, s)[i].id) == s
    decreases |points|
  {
    var init := PointsFor(route, points[..|points| - 1], s);
    if i < |init| { PointsForStay(route, points[..|points| - 1], s, i); }
  }

  lemma CommitStaysHome(route: Route, m: Mutation, s: nat, coll: Coll, id: Id)
    requires id in CommitOn(route, m, s, coll).points
    ensures id in coll.points || route(id) == s
  {
    var part := PartFor(route, m, s);
    ApplyOn(coll, part, coll.sequence + 1, id);
    if m.Upsert? && id in Touched(part) {
      var i :| 0 <= i < |part.points| && part.points[i].id == id;
      PointsForStay(route, m.points, s, i);
    }
  }

  lemma CommitRefines(route: Route, m: Mutation, shards: seq<Coll>, one: Coll)
    requires Refines(route, shards, one)
    ensures Refines(route, CommitAll(route, m, shards), Apply(one, m, one.sequence + 1))
  {
    var after, next := CommitAll(route, m, shards), Apply(one, m, one.sequence + 1);
    forall id ensures SameContent(after[route(id)].points, next.points, id) {
      var s := route(id);
      assert id in one.points || id !in one.points;
      PartAppliesTheSame(route, shards[s], one, m, shards[s].sequence + 1, one.sequence + 1, id);
      if IsEmpty(PartFor(route, m, s)) { EmptyPartIsIdle(route, m, s, shards[s], id); }
    }
    forall s: nat, id | s < |after| && id in after[s].points ensures route(id) == s {
      CommitStaysHome(route, m, s, shards[s], id);
      assert id in shards[s].points || route(id) == s;
    }
  }

  // ----- what a request does ---------------------------------------------

  /** Shard `s` gets a batch and its own checks refuse it: no sequence number left, or not encodable. */
  predicate Refuses(cfg: Config, route: Route, m: Mutation, shards: seq<Coll>, s: nat)
    requires s < |shards|
  {
    var part := PartFor(route, m, s);
    !IsEmpty(part) && (shards[s].sequence >= U64_MAX || !cfg.encodable(part))
  }

  /** The number of the first of `n` shards that refuses its part of `m`, or `n`. */
  function Stop(cfg: Config, route: Route, m: Mutation, shards: seq<Coll>, n: nat): (r: nat)
    requires n <= |shards|
    ensures r <= n
    ensures r < n ==> Refuses(cfg, route, m, shards, r)
    ensures forall s :: 0 <= s < r ==> !Refuses(cfg, route, m, shards, s)
  {
    if n == 0 then 0
    else
      var before := Stop(cfg, route, m, shards, n - 1);
      if before < n - 1 then before else if Refuses(cfg, route, m, shards, n - 1) then n - 1 else n
  }

  /** The first `n` shards have committed their parts. */
  function Partly(route: Route, m: Mutation, shards: seq<Coll>, n: nat): seq<Coll> {
    seq(|shards|, s requires 0 <= s < |shards| => if s < n then CommitOn(route, m, s, shards[s]) else shards[s])
  }

  /** The shards after a validated request with prepared batch `m`. */
  function Outcome(cfg: Config, route: Route, m: Mutation, shards: seq<Coll>): seq<Coll> {
    Partly(route, m, shards, Stop(cfg, route, m, shards, |shards|))
  }

  /** No shard refuses: the request reports success. */
  predicate Succeeds(cfg: Config, route: Route, m: Mutation, shards: seq<Coll>) {
    Stop(cfg, route, m, shards, |shards|) == |shards|
  }

  /** Every shard accepts, or the first that refuses is also the first that gets anything. */
  ghost predicate Atomic(cfg: Config, route: Route, m: Mutation, shards: seq<Coll>) {
    || (forall s :: 0 <= s < |shards| ==> !Refuses(cfg, route, m, shards, s))
    || (exists r :: 0 <= r < |shards| && Refuses(cfg, route, m, shards, r) && NothingBefore(route, m, r))
  }

  ghost predicate NothingBefore(route: Route, m: Mutation, r: nat) {
    forall s: nat {:trigger PartFor(route, m, s)} :: s < r ==> IsEmpty(PartFor(route, m, s))
  }

  /** A request leaves all of its shards changed or none if and only if it is `Atomic`. */
  lemma RequestIsAtomicIff(cfg: Config, route: Route, m: Mutation, shards: seq<Coll>)
    ensures Outcome(cfg, route, m, shards) == CommitAll(route, m, shards) || Outcome(cfg, route, m, shards) == shards
      <==> Atomic(cfg, route, m, shards)
  {
    var stop, after := Stop(cfg, route, m, shards, |shards|), Outcome(cfg, route, m, shards);
    if stop < |shards| {
      if NothingBefore(route, m, stop) {
        assert after == shards;
        assert Refuses(cfg, route, m, shards, stop);
      } else {
        var s: nat :| s < stop && !IsEmpty(PartFor(route, m, s));
        assert after[s].sequence == shards[s].sequence + 1;
        assert CommitAll(route, m, shards)[stop].sequence == after[stop].sequence + 1;
        forall r | 0 <= r < |shards| && Refuses(cfg, route, m, shards, r) ensures !NothingBefore(route, m, r) {
          assert s < stop <= r;
        }
      }
    } else {
      assert after == CommitAll(route, m, shards);
    }
  }

  lemma OutcomeStaysHome(cfg: Config, route: Route, m: Mutation, shards: seq<Coll>)
    requires AtHome(route, shards)
    ensures AtHome(route, Outcome(cfg, route, m, shards))
  {
    var after := Outcome(cfg, route, m, shards);
    forall s: nat, id | s < |after| && id in after[s].points ensures route(id) == s && after[s].points[id].id == id {
      if id in CommitOn(route, m, s, shards[s]).points {
        CommitStaysHome(route, m, s, shards[s], id);
        ApplyOn(shards[s], PartFor(route, m, s), shards[s].sequence + 1, id);
      }
      assert id in shards[s].points || id !in shards[s].points;
    }
  }

  // ----- a request that splits -------------------------------------------

  /**
   Validation never looks at metadata, so a request whose second point carries a
   NaN passes it, commits the first point on its shard and is refused by the other.
   */
  lemma NaNSplitsRequest(
      pf: Platform, cfg: Config, route: Route, shards: seq<Coll>, a: UpsertPoint, b: UpsertPoint, key: string)
    requires EncoderChecks(pf, cfg) && Prepare(cfg, Upsert([a, b])).Ok?
    requires key in b.metadata && b.metadata[key] == Float(NaN)
    requires cfg.encodable(Upsert(Prepare(cfg, Upsert([a, b])).value.points[..1]))
    requires route(a.id) < route(b.id) < |shards|
    requires shards[route(a.id)].sequence < U64_MAX
    ensures var m := Prepare(cfg, Upsert([a, b])).value;
      var after := Outcome(cfg, route, m, shards);
      && !Succeeds(cfg, route, m, shards) && !Atomic(cfg, route, m, shards)
      && a.id in after[route(a.id)].points && after[route(a.id)].sequence == shards[route(a.id)].sequence + 1
      && after[route(b.id)] == shards[route(b.id)]
  {
    PreparedPair(cfg, a, b);
    var m := Prepare(cfg, Upsert([a, b])).value;
    assert m.points[..1] == [m.points[0]];
    PreparedSecond(cfg, a, b);
    NaNIsRefused(pf, cfg, Upsert([b]), 0, key);
    SplitPair(cfg, route, shards, m.points[0], m.points[1]);
  }

  lemma PreparedPair(cfg: Config, a: UpsertPoint, b: UpsertPoint)
    requires PrepareBatch(cfg, [a, b]).Ok?
    ensures var m := PrepareBatch(cfg, [a, b]).value;
      && m == [m[0], m[1]]
      && m[0].id == a.id && m[0].metadata == a.metadata && m[1].id == b.id && m[1].metadata == b.metadata
  {
    PreparedLast(cfg, [a], b);
    PreparedLast(cfg, [], a);
    assert [a] == [] + [a] && [a, b] == [a] + [b];
  }

  lemma PreparedSecond(cfg: Config, a: UpsertPoint, b: UpsertPoint)
    requires PrepareBatch(cfg, [a, b]).Ok?
    ensures PrepareBatch(cfg, [b]) == Ok([PrepareBatch(cfg, [a, b]).value[1]])
  {
    var q := PrepareBatch(cfg, [a, b]).value[1];
    assert [a, b][..1] == [a] && [b][..0] == [];
    assert PrepareBatch(cfg, []) == Ok([]);
    PrepareBatchIs(cfg, [a, b], 1);
    assert [] + [q] == [q];
  }

  lemma PreparedLast(cfg: Config, points: seq<UpsertPoint>, last: UpsertPoint)
    requires PrepareBatch(cfg, points + [last]).Ok?
    ensures PrepareBatch(cfg, points).Ok?
    ensures var batch := PrepareBatch(cfg, points + [last]).value;
      && batch[..|points|] == PrepareBatch(cfg, points).value
      && batch[|points|].id == last.id && batch[|points|].metadata == last.metadata
  {
    assert (points + [last])[..|points|] == points;
  }

  lemma PartsOfPair(route: Route, p: UpsertPoint, q: UpsertPoint, s: nat)
    requires route(p.id) != route(q.id)
    ensures PointsFor(route, [p, q], s) == if s == route(p.id) then [p] else if s == route(q.id) then [q] else []
  {
    assert [p, q][..1] == [p] && [p][..0] == [];
    assert PointsFor(route, [], s) == [];
    assert PointsFor(route, [p], s) == if s == route(p.id) then [p] else [];
  }

  lemma SplitPair(cfg: Config, route: Route, shards: seq<Coll>, p: UpsertPoint, q: UpsertPoint)
    requires cfg.encodable(Upsert([p])) && !cfg.encodable(Upsert([q]))
    requires route(p.id) < route(q.id) < |shards| && shards[route(p.id)].sequence < U64_MAX
    ensures var m, after := Upsert([p, q]), Outcome(cfg, route, Upsert([p, q]), shards);
      && !Succeeds(cfg, route, m, shards) && !Atomic(cfg, route, m, shards)
      && after[route(p.id)] == Apply(shards[route(p.id)], Upsert([p]), shards[route(p.id)].sequence + 1)
      && p.id in after[route(p.id)].points
      && after[route(q.id)] == shards[route(q.id)]
  {
    var m, s, t := Upsert([p, q]), route(p.id), route(q.id);
    var stop := Stop(cfg, route, m, shards, |shards|);
    PartsOfPair(route, p, q, s);
    PartsOfPair(route, p, q, t);
    PartsOfPair(route, p, q, stop);
    assert Refuses(cfg, route, m, shards, t) && stop == t;
    assert [p][..0] == [];
    assert !IsEmpty(PartFor(route, m, s));
  }

  // ----- whole runs ------------------------------------------------------

  /** The points and IDs of `m` that belong to shards below `r`. */
  function PointsBelow(route: Route, points: seq<UpsertPoint>, r: nat): seq<UpsertPoint>
    decreases |points|
  {
    if points == [] then []
    else
      var init, last := PointsBelow(route, points[..|points| - 1], r), points[|points| - 1];
      if route(last.id) < r then init + [last] else init
  }

  function IdsBelow(route: Route, ids: seq<Id>, r: nat): seq<Id>
    decreases |ids|
  {
    if ids == [] then []
    else
      var init, last := IdsBelow(route, ids[..|ids| - 1], r), ids[|ids| - 1];
      if route(last) < r then init + [last] else init
  }

  function PartBelow(route: Route, m: Mutation, r: nat): Mutation {
    match m
    case Upsert(points) => Upsert(PointsBelow(route, points, r))
    case Delete(ids) => Delete(IdsBelow(route, ids, r))
  }

  lemma {:induction false} PointsOfBelow(route: Route, points: seq<UpsertPoint>, r: nat, s: nat)
    ensures PointsFor(route, PointsBelow(route, points, r), s) == if s < r then PointsFor(route, points, s) else []
    decreases |points|
  {
    if points != [] {
      var init, last := points[..|points| - 1], points[|points| - 1];
      PointsOfBelow(route, init, r, s);
      var below := PointsBelow(route, points, r);
      if route(last.id) < r {
        assert below[..|below| - 1] == PointsBelow(route, init, r) && below[|below| - 1] == last;
      }
    }
  }

  lemma {:induction false} IdsOfBelow(route: Route, ids: seq<Id>, r: nat, s: nat)
    ensures IdsFor(route, IdsBelow(route, ids, r), s) == if s < r then IdsFor(route, ids, s) else []
    decreases |ids|
  {
    if ids != [] {
      var init, last := ids[..|ids| - 1], ids[|ids| - 1];
      IdsOfBelow(route, init, r, s);
      var below := IdsBelow(route, ids, r);
      if route(last) < r {
        assert below[..|below| - 1] == IdsBelow(route, init, r) && below[|below| - 1] == last;
      }
    }
  }

  lemma PartOfBelow(route: Route, m: Mutation, r: nat, s: nat)
    ensures s < r ==> PartFor(route, PartBelow(route, m, r), s) == PartFor(route, m, s)
    ensures s >= r ==> IsEmpty(PartFor(route, PartBelow(route, m, r), s))
  {
    match m
    case Upsert(points) => PointsOfBelow(route, points, r, s);
    case Delete(ids) => IdsOfBelow(route, ids, r, s);
  }

  /** What a request changed is the whole commit of the part below the refusing shard. */
  lemma OutcomeIsCommit(cfg: Config, route: Route, m: Mutation, shards: seq<Coll>)
    ensures Outcome(cfg, route, m, shards)
      == CommitAll(route, PartBelow(route, m, Stop(cfg, route, m, shards, |shards|)), shards)
  {
    var stop := Stop(cfg, route, m, shards, |shards|);
    forall s | 0 <= s < |shards|
      ensures Outcome(cfg, route, m, shards)[s] == CommitAll(route, PartBelow(route, m, stop), shards)[s]
    {
      PartOfBelow(route, m, stop, s);
    }
  }

  lemma {:induction false} PointsBelowAll(route: Route, points: seq<UpsertPoint>, n: nat)
    requires RoutesTo(route, n)
    ensures PointsBelow(route, points, n) == points
    decreases |points|
  {
    if points != [] {
      PointsBelowAll(route, points[..|points| - 1], n);
      assert route(points[|points| - 1].id) < n;
      assert points == points[..|points| - 1] + [points[|points| - 1]];
    }
  }

  lemma {:induction false} IdsBelowAll(route: Route, ids: seq<Id>, n: nat)
    requires RoutesTo(route, n)
    ensures IdsBelow(route, ids, n) == ids
    decreases |ids|
  {
    if ids != [] {
      IdsBelowAll(route, ids[..|ids| - 1], n);
      assert route(ids[|ids| - 1]) < n;
      assert ids == ids[..|ids| - 1] + [ids[|ids| - 1]];
    }
  }

  lemma PartBelowAll(route: Route, m: Mutation, n: nat)
    requires RoutesTo(route, n)
    ensures PartBelow(route, m, n) == m
  {
    match m
    case Upsert(points) => PointsBelowAll(route, points, n);
    case Delete(ids) => IdsBelowAll(route, ids, n);
  }

  /** Requests, validated and carried out one after the other. */
  function RunSharded(cfg: Config, route: Route, shards: nat, ms: seq<Mutation>, n: nat): (r: seq<Coll>)
    requires n <= |ms|
    ensures |r| == shards
  {
    if n == 0 then seq(shards, s => EMPTY)
    else
      var before, m := RunSharded(cfg, route, shards, ms, n - 1), Prepare(cfg, ms[n - 1]);
      if m.Err? then before else Outcome(cfg, route, m.value, before)
  }

  function ApplyIfAny(one: Coll, m: Mutation): Coll {
    if IsEmpty(m) then one else Apply(one, m, one.sequence + 1)
  }

  /** One collection that gets from each request the part below the shard that refused it. */
  function RunOne(cfg: Config, route: Route, shards: nat, ms: seq<Mutation>, n: nat): Coll
    requires n <= |ms|
  {
    if n == 0 then EMPTY
    else
      var before, m := RunOne(cfg, route, shards, ms, n - 1), Prepare(cfg, ms[n - 1]);
      if m.Err? then before
      else
        var state := RunSharded(cfg, route, shards, ms, n - 1);
        ApplyIfAny(before, PartBelow(route, m.value, Stop(cfg, route, m.value, state, shards)))
  }

  /** One collection that gets the requests that reported success, whole. */
  function RunWhole(cfg: Config, route: Route, shards: nat, ms: seq<Mutation>, n: nat): Coll
    requires n <= |ms|
  {
    if n == 0 then EMPTY
    else
      var before, m := RunWhole(cfg, route, shards, ms, n - 1), Prepare(cfg, ms[n - 1]);
      if m.Ok? && Succeeds(cfg, route, m.value, RunSharded(cfg, route, shards, ms, n - 1))
      then Apply(before, m.value, before.sequence + 1)
      else before
  }

  lemma EmptyApplyRefines(route: Route, m: Mutation, shards: seq<Coll>, one: Coll)
    requires Refines(route, shards, one) && IsEmpty(m)
    ensures Refines(route, CommitAll(route, m, shards), one)
  {
    forall s | 0 <= s < |shards| ensures CommitAll(route, m, shards)[s] == shards[s] {
      assert IsEmpty(PartFor(route, m, s));
    }
    assert CommitAll(route, m, shards) == shards;
  }

  /**
   Over any requests, refused ones included, the shards together hold what one
   collection holds that got the same parts.
   */
  lemma {:induction false} RunRefines(cfg: Config, route: Route, shards: nat, ms: seq<Mutation>, n: nat)
    requires RoutesTo(route, shards) && n <= |ms|
    ensures Refines(route, RunSharded(cfg, route, shards, ms, n), RunOne(cfg, route, shards, ms, n))
  {
    if n == 0 {
      forall id ensures SameContent(RunSharded(cfg, route, shards, ms, n)[route(id)].points, map[], id) {
        assert route(id) < shards;
      }
    } else {
      RunRefines(cfg, route, shards, ms, n - 1);
      var m := Prepare(cfg, ms[n - 1]);
      if m.Ok? {
        var many, one := RunSharded(cfg, route, shards, ms, n - 1), RunOne(cfg, route, shards, ms, n - 1);
        StepRefines(cfg, route, m.value, many, one);
      }
    }
  }

  lemma StepRefines(cfg: Config, route: Route, m: Mutation, shards: seq<Coll>, one: Coll)
    requires Refines(route, shards, one)
    ensures Refines(route, Outcome(cfg, route, m, shards),
                    ApplyIfAny(one, PartBelow(route, m, Stop(cfg, route, m, shards, |shards|))))
  {
    var part := PartBelow(route, m, Stop(cfg, route, m, shards, |shards|));
    OutcomeIsCommit(cfg, route, m, shards);
    if IsEmpty(part) {
      EmptyApplyRefines(route, part, shards, one);
    } else {
      CommitRefines(route, part, shards, one);
    }
  }

  /** Every request of the run is atomic when it arrives. */
  ghost predicate AtomicRun(cfg: Config, route: Route, shards: nat, ms: seq<Mutation>, n: nat)
    requires n <= |ms|
  {
    n > 0 ==>
      && AtomicRun(cfg, route, shards, ms, n - 1)
      && (Prepare(cfg, ms[n - 1]).Ok? ==>
            Atomic(cfg, route, Prepare(cfg, ms[n - 1]).value, RunSharded(cfg, route, shards, ms, n - 1)))
  }

  lemma NothingBelow(route: Route, m: Mutation, r: nat)
    requires NothingBefore(route, m, r)
    ensures IsEmpty(PartBelow(route, m, r))
  {
    if !IsEmpty(PartBelow(route, m, r)) {
      var s := if m.Upsert? then ShardBelow(route, m.points, r) else ShardOfIdBelow(route, m.ids, r);
      var part := PartFor(route, m, s);
    }
  }

  /** A shard below `r` that gets a point. */
  ghost function ShardBelow(route: Route, points: seq<UpsertPoint>, r: nat): (s: nat)
    requires PointsBelow(route, points, r) != []
    ensures s < r && PointsFor(route, points, s) != []
    decreases |points|
  {
    var init, last := points[..|points| - 1], points[|points| - 1];
    if route(last.id) < r then route(last.id) else ShardBelow(route, init, r)
  }

  ghost function ShardOfIdBelow(route: Route, ids: seq<Id>, r: nat): (s: nat)
    requires IdsBelow(route, ids, r) != []
    ensures s < r && IdsFor(route, ids, s) != []
    decreases |ids|
  {
    var init, last := ids[..|ids| - 1], ids[|ids| - 1];
    if route(last) < r then route(last) else ShardOfIdBelow(route, init, r)
  }

  /** While requests are atomic, the shards hold exactly the requests that reported success. */
  lemma {:induction false} AtomicRunIsWhole(cfg: Config, route: Route, shards: nat, ms: seq<Mutation>, n: nat)
    requires RoutesTo(route, shards) && n <= |ms| && AtomicRun(cfg, route, shards, ms, n)
    ensures Refines(route, RunSharded(cfg, route, shards, ms, n), RunWhole(cfg, route, shards, ms, n))
  {
    RunRefines(cfg, route, shards, ms, n);
    PartsAreWhole(cfg, route, shards, ms, n);
  }

  lemma {:induction false} PartsAreWhole(cfg: Config, route: Route, shards: nat, ms: seq<Mutation>, n: nat)
    requires RoutesTo(route, shards) && n <= |ms| && AtomicRun(cfg, route, shards, ms, n)
    ensures RunOne(cfg, route, shards, ms, n) == RunWhole(cfg, route, shards, ms, n)
  {
    if n > 0 {
      PartsAreWhole(cfg, route, shards, ms, n - 1);
      var m, state := Prepare(cfg, ms[n - 1]), RunSharded(cfg, route, shards, ms, n - 1);
      if m.Ok? {
        PreparedIsNotEmpty(cfg, ms[n - 1]);
        AtomicStep(cfg, route, m.value, state, RunOne(cfg, route, shards, ms, n - 1));
      }
    }
  }

  lemma AtomicStep(cfg: Config, route: Route, m: Mutation, shards: seq<Coll>, one: Coll)
    requires RoutesTo(route, |shards|) && Atomic(cfg, route, m, shards) && !IsEmpty(m)
    ensures ApplyIfAny(one, PartBelow(route, m, Stop(cfg, route, m, shards, |shards|)))
      == if Succeeds(cfg, route, m, shards) then Apply(one, m, one.sequence + 1) else one
  {
    AtomicPart(cfg, route, m, shards);
  }

  lemma PreparedIsNotEmpty(cfg: Config, m: Mutation)
    requires Prepare(cfg, m).Ok?
    ensures !IsEmpty(Prepare(cfg, m).value)
  {
  }

  lemma AtomicPart(cfg: Config, route: Route, m: Mutation, shards: seq<Coll>)
    requires RoutesTo(route, |shards|) && Atomic(cfg, route, m, shards)
    ensures var part := PartBelow(route, m, Stop(cfg, route, m, shards, |shards|));
      if Succeeds(cfg, route, m, shards) then part == m else IsEmpty(part)
  {
    var stop := Stop(cfg, route, m, shards, |shards|);
    if stop == |shards| {
      PartBelowAll(route, m, stop);
    } else {
      var r :| 0 <= r < |shards| && Refuses(cfg, route, m, shards, r) && NothingBefore(route, m, r);
      assert stop <= r;
      NothingBelow(route, m, stop);
    }
  }

  // ----- a part of a prepared request ------------------------------------

  lemma {:induction false} IdsForStay(route: Route, ids: seq<Id>, s: nat)
    requires "" !in ids
    ensures "" !in IdsFor(route, ids, s)
    decreases |ids|
  {
    if ids != [] {
      assert ids == ids[..|ids| - 1] + [ids[|ids| - 1]];
      IdsForStay(route, ids[..|ids| - 1], s);
    }
  }

  lemma {:induction false} PartSize(cfg: Config, route: Route, points: seq<UpsertPoint>, s: nat)
    requires PrepareBatch(cfg, points).Ok?
    ensures |PointsFor(route, PrepareBatch(cfg, points).value, s)| == |PointsFor(route, points, s)|
  {
    PartIsPrepared(cfg, route, points, s);
  }

  /** Preparation cannot fail twice: a shard can refuse its part only as `Refuses` says. */
  lemma PartOfPrepared(cfg: Config, route: Route, m: Mutation, prepared: Mutation, s: nat)
    requires Prepare(cfg, m) == Ok(prepared)
    ensures var part := PartFor(route, m, s);
      && (IsEmpty(part) <==> IsEmpty(PartFor(route, prepared, s)))
      && (!IsEmpty(part) ==> Prepare(cfg, part) == Ok(PartFor(route, prepared, s)))
  {
    match m
    case Upsert(points) =>
      PartIsPrepared(cfg, route, points, s);
      PartSize(cfg, route, points, s);
    case Delete(ids) => IdsForStay(route, ids, s);
  }

  /** One turn of the commit loop: what is committed, and when it is refused. */
  lemma CommitStep(cfg: Config, route: Route, m: Mutation, prepared: Mutation, shards: seq<Coll>, s: nat)
    requires Prepare(cfg, m) == Ok(prepared) && s < |shards|
    ensures var part, now := PartFor(route, m, s), Partly(route, prepared, shards, s);
      && now[s] == shards[s]
      && Partly(route, prepared, shards, s + 1) == now[s := CommitOn(route, prepared, s, shards[s])]
      && (IsEmpty(part) ==> CommitOn(route, prepared, s, shards[s]) == shards[s])
      && (!IsEmpty(part) ==> Prepare(cfg, part).Ok? && CommitOn(route, prepared, s, shards[s])
                               == Apply(shards[s], Prepare(cfg, part).value, shards[s].sequence + 1))
      && (Refuses(cfg, route, prepared, shards, s)
          <==> !IsEmpty(part) && !(shards[s].sequence < U64_MAX && Accepts(cfg, part)))
  {
    PartOfPrepared(cfg, route, m, prepared, s);
  }
}
