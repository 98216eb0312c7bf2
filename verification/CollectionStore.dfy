/** `Collection` as the mutable object the engines share, and its exact search. */
module CollectionStore {
  import opened Base
  import opened Filters
  import opened Collections
  import opened Ranking
  import opened TopK

  // ----- queries ---------------------------------------------------------

  /** The prepared query, or the error every exact search reports for it. */
  function CheckQuery(cfg: Config, k: nat, query: Vector): Result<Vector> {
    if k == 0 then Err(InvalidQuery)
    else if |query| != cfg.dimension then Err(InvalidDimension)
    else match cfg.prepare(query)
      case None => Err(InvalidVector)
      case Some(q) => Ok(q)
  }

  /** `Metric::score` with a prepared query. */
  function ScoreBy(cfg: Config, q: Vector): Vector -> int { (v: Vector) => cfg.score(q, v) }

  // ----- exact search ----------------------------------------------------

  /** The hit for a stored point. */
  function HitOf(p: StoredPoint, score: Vector -> int): Hit {
    Hit(p.id, score(p.vector), p.metadata, p.sequence)
  }

  predicate Passes(filter: Option<Filter>, p: StoredPoint) {
    filter.None? || Matches(filter.value, p.metadata)
  }

  /** All hits of the points `ids`: what a search over them has to rank. */
  ghost function HitsAmong(points: Points, ids: set<Id>, filter: Option<Filter>, score: Vector -> int): set<Hit> {
    set id | id in ids && id in points && Passes(filter, points[id]) :: HitOf(points[id], score)
  }

  ghost function AllHits(points: Points, filter: Option<Filter>, score: Vector -> int): set<Hit> {
    HitsAmong(points, points.Keys, filter, score)
  }

  /** Every point is stored under its own ID. */
  ghost predicate WellKeyed(points: Points) {
    forall id :: id in points ==> points[id].id == id
  }

  lemma {:induction false} HistoryIsWellKeyed(h: seq<Mutation>, n: nat)
    requires n <= |h|
    ensures WellKeyed(At(h, n).points)
  {
    if n > 0 {
      HistoryIsWellKeyed(h, n - 1);
      forall id | id in At(h, n).points ensures At(h, n).points[id].id == id {
        ApplyOn(At(h, n - 1), h[n - 1], n, id);
      }
    }
  }

  lemma HitsAreOnePerId(points: Points, ids: set<Id>, filter: Option<Filter>, score: Vector -> int)
    requires WellKeyed(points)
    ensures OnePerId(HitsAmong(points, ids, filter, score))
  {
  }

  // ----- what an exact answer means --------------------------------------

  /** The IDs among `ids` whose live point the filter accepts. */
  ghost function Eligible(points: Points, ids: set<Id>, filter: Option<Filter>): set<Id> {
    set id | id in ids && id in points && (filter.None? || Matches(filter.value, points[id].metadata))
  }

  /** Score `x` under ID `a` comes before score `y` under ID `b`: the higher score, then the smaller string. */
  ghost predicate Outranks(x: int, a: Id, y: int, b: Id) {
    x > y || (x == y && exists n: nat :: PrecedesAt(a, b, n))
  }

  /** Each hit shows its stored point. */
  ghost predicate Shows(points: Points, score: (Vector, Vector) -> int, q: Vector, h: Hit)
    requires h.id in points
  {
    var p := points[h.id];
    h.score == score(q, p.vector) && h.metadata == p.metadata && h.sequence == p.sequence
  }

  /** `r` is the best `k` of the eligible points, in terms of stored points and scores alone. */
  ghost predicate BestOf(
      points: Points, ids: set<Id>, filter: Option<Filter>, score: (Vector, Vector) -> int, q: Vector, k: nat,
      r: seq<Hit>)
  {
    var eligible := Eligible(points, ids, filter);
    && |r| == (if |eligible| < k then |eligible| else k)
    && (forall i :: 0 <= i < |r| ==> r[i].id in eligible && Shows(points, score, q, r[i]))
    && (forall i, j :: 0 <= i < j < |r| ==>
          r[i].id != r[j].id && r[i].score >= r[j].score && Outranks(r[i].score, r[i].id, r[j].score, r[j].id))
    && (forall i, id :: 0 <= i < |r| && id in eligible && (forall j :: 0 <= j < |r| ==> r[j].id != id) ==>
          Outranks(r[i].score, r[i].id, score(q, points[id].vector), id))
  }

  lemma OutranksIsBefore(a: Hit, b: Hit)
    ensures Before(a, b) <==> Outranks(a.score, a.id, b.score, b.id)
  {
    LexByFirstDifference(a.id, b.id);
  }

  lemma HitsWith(points: Points, rest: set<Id>, id: Id, filter: Option<Filter>, score: Vector -> int)
    requires WellKeyed(points) && id !in rest
    ensures var more := if id in points && Passes(filter, points[id]) then {HitOf(points[id], score)} else {};
      && HitsAmong(points, rest + {id}, filter, score) == HitsAmong(points, rest, filter, score) + more
      && HitsAmong(points, rest, filter, score) !! more
  {
    var hits, all := HitsAmong(points, rest, filter, score), HitsAmong(points, rest + {id}, filter, score);
    forall h | h in hits ensures h.id in rest && h in all {
      var x :| x in rest && x in points && Passes(filter, points[x]) && HitOf(points[x], score) == h;
    }
    forall h | h in all
      ensures h in hits || (id in points && Passes(filter, points[id]) && h == HitOf(points[id], score))
    {
      var x :| x in rest + {id} && x in points && Passes(filter, points[x]) && HitOf(points[x], score) == h;
    }
  }

  lemma EligibleWith(points: Points, rest: set<Id>, id: Id, filter: Option<Filter>)
    requires id !in rest
    ensures var more := if id in points && Passes(filter, points[id]) then {id} else {};
      && Eligible(points, rest + {id}, filter) == Eligible(points, rest, filter) + more
      && Eligible(points, rest, filter) !! more
  {
  }

  lemma {:induction false} OneHitPerId(points: Points, ids: set<Id>, filter: Option<Filter>, score: Vector -> int)
    requires WellKeyed(points)
    ensures |HitsAmong(points, ids, filter, score)| == |Eligible(points, ids, filter)|
    decreases ids
  {
    if ids == {} {
      assert HitsAmong(points, ids, filter, score) == {} && Eligible(points, ids, filter) == {};
    } else {
      var id :| id in ids;
      var rest := ids - {id};
      assert ids == rest + {id};
      OneHitPerId(points, rest, filter, score);
      HitsWith(points, rest, id, filter, score);
      EligibleWith(points, rest, id, filter);
    }
  }

  lemma TopKIsBest(
      cfg: Config, points: Points, ids: set<Id>, filter: Option<Filter>, q: Vector, k: nat, r: seq<Hit>)
    requires WellKeyed(points) && IsTopK(r, HitsAmong(points, ids, filter, ScoreBy(cfg, q)), k)
    ensures BestOf(points, ids, filter, cfg.score, q, k, r)
  {
    var score := ScoreBy(cfg, q);
    var all, eligible := HitsAmong(points, ids, filter, score), Eligible(points, ids, filter);
    OneHitPerId(points, ids, filter, score);
    forall i | 0 <= i < |r| ensures r[i].id in eligible && Shows(points, cfg.score, q, r[i]) {
      assert r[i] in Elements(r);
    }
    forall i, j | 0 <= i < j < |r| ensures r[i].id != r[j].id && r[i].score >= r[j].score
      && Outranks(r[i].score, r[i].id, r[j].score, r[j].id)
    {
      assert r[i] in Elements(r) && r[j] in Elements(r);
      BeforeIrreflexive(r[i]);
      OutranksIsBefore(r[i], r[j]);
    }
    forall i, id | 0 <= i < |r| && id in eligible && (forall j :: 0 <= j < |r| ==> r[j].id != id)
      ensures Outranks(r[i].score, r[i].id, cfg.score(q, points[id].vector), id)
    {
      var h := HitOf(points[id], score);
      assert h in all && h !in r && AllBefore(r, h);
      OutranksIsBefore(r[i], h);
    }
  }

  /** The answer of an exact search over `ids`, errors included. */
  ghost predicate ExactAnswer(
      cfg: Config, points: Points, ids: set<Id>, query: Vector, k: nat, filter: Option<Filter>, r: Result<seq<Hit>>)
  {
    if k == 0 then r == Err(InvalidQuery)
    else if |query| != cfg.dimension then r == Err(InvalidDimension)
    else if cfg.prepare(query).None? then r == Err(InvalidVector)
    else r.Ok? && BestOf(points, ids, filter, cfg.score, cfg.prepare(query).value, k, r.value)
  }

  lemma TopKIsAnswer(
      cfg: Config, points: Points, ids: set<Id>, query: Vector, k: nat, filter: Option<Filter>, r: Result<seq<Hit>>)
    requires WellKeyed(points)
    requires var q := CheckQuery(cfg, k, query);
      if q.Err? then r == Err(q.error)
      else r.Ok? && IsTopK(r.value, HitsAmong(points, ids, filter, ScoreBy(cfg, q.value)), k)
    ensures ExactAnswer(cfg, points, ids, query, k, filter, r)
  {
    var q := CheckQuery(cfg, k, query);
    if q.Ok? { TopKIsBest(cfg, points, ids, filter, q.value, k, r.value); }
  }

  // ----- ranking ---------------------------------------------------------

  /** The exact top `k` of the listed points that pass the filter. */
  method RankIds(points: Points, k: nat, ids: set<Id>, filter: Option<Filter>, score: Vector -> int)
    returns (r: seq<Hit>)
    requires WellKeyed(points)
    ensures IsTopK(r, HitsAmong(points, ids, filter, score), k)
  {
    var hits := CollectHits(points, ids, filter, score);
    r := SelectTop(hits, k);
  }

  method CollectHits(points: Points, ids: set<Id>, filter: Option<Filter>, score: Vector -> int)
    returns (hits: seq<Hit>)
    requires WellKeyed(points)
    ensures DistinctIds(hits) && Elements(hits) == HitsAmong(points, ids, filter, score)
  {
    hits := [];
    var rest := ids;
    while rest != {}
      invariant rest <= ids && DistinctIds(hits)
      invariant Elements(hits) == HitsAmong(points, ids - rest, filter, score)
      decreases rest
    {
      var id :| id in rest;
      if id in points && Passes(filter, points[id]) {
        var hit := HitOf(points[id], score);
        forall i | 0 <= i < |hits| ensures hits[i].id != id { assert hits[i] in Elements(hits); }
        ElementsAppend(hits, hit);
        hits := hits + [hit];
      }
      rest := rest - {id};
    }
    assert ids - rest == ids;
  }

  // ----- the mutable collection ------------------------------------------

  lemma {:induction false} BatchErrorStays(cfg: Config, points: seq<UpsertPoint>, n: nat)
    requires n <= |points| && PrepareBatch(cfg, points[..n]).Err?
    ensures PrepareBatch(cfg, points) == PrepareBatch(cfg, points[..n])
    decreases |points|
  {
    if n < |points| {
      var init := points[..|points| - 1];
      assert init[..n] == points[..n];
      BatchErrorStays(cfg, init, n);
    } else {
      assert points[..n] == points;
    }
  }

  class Collection {
    const cfg: Config
    var points: Points
    var sequence: nat

    ghost function View(): Coll
      reads this
    {
      Coll(points, sequence)
    }

    constructor (cfg: Config)
      ensures this.cfg == cfg && View() == EMPTY
    {
      this.cfg := cfg;
      points := map[];
      sequence := 0;
    }

    /** Validates and prepares a batch in order, stopping at the first bad point. */
    method PrepareUpsert(batch: seq<UpsertPoint>) returns (r: Result<seq<UpsertPoint>>)
      ensures batch == [] ==> r == Err(InvalidQuery)
      ensures batch != [] ==> r == PrepareBatch(cfg, batch)
      ensures batch != [] ==> Prepared(cfg, batch, r)
    {
      if batch == [] {
        return Err(InvalidQuery);
      }
      PrepareBatchMeans(cfg, batch);
      var prepared: seq<UpsertPoint> := [];
      for n := 0 to |batch|
        invariant PrepareBatch(cfg, batch[..n]) == Ok(prepared)
      {
        assert batch[..n + 1][..n] == batch[..n];
        var p := batch[n];
        var v := cfg.prepare(p.vector);
        if |p.vector| != cfg.dimension {
          BatchErrorStays(cfg, batch, n + 1);
          return Err(InvalidDimension);
        }
        if p.id == "" {
          BatchErrorStays(cfg, batch, n + 1);
          return Err(InvalidQuery);
        }
        if v.None? {
          BatchErrorStays(cfg, batch, n + 1);
          return Err(InvalidVector);
        }
        prepared := prepared + [p.(vector := v.value)];
      }
      assert batch[..|batch|] == batch;
      r := Ok(prepared);
    }

    method ApplyPreparedUpsert(batch: seq<UpsertPoint>, at: nat)
      modifies this
      ensures View() == Apply(old(View()), Upsert(batch), at)
      ensures sequence == at
      ensures forall id :: Mentions(Upsert(batch), id) ==> id in points && StoresLast(Upsert(batch), at, id, points[id])
      ensures forall id :: !Mentions(Upsert(batch), id) ==> SameOn(old(points), points, id)
    {
      for n := 0 to |batch|
        invariant sequence == old(sequence)
        invariant points == PutAll(old(points), batch[..n], at)
      {
        assert batch[..n + 1][..n] == batch[..n];
        points := points[batch[n].id := Stamp(batch[n], at)];
      }
      assert batch[..|batch|] == batch;
      sequence := at;
      forall id
        ensures if Mentions(Upsert(batch), id) then id in points && StoresLast(Upsert(batch), at, id, points[id])
                else SameOn(old(points), points, id)
      {
        ApplyMeans(old(View()), Upsert(batch), at, id);
      }
    }

    method ApplyDeleteAt(ids: seq<Id>, at: nat)
      modifies this
      ensures View() == Apply(old(View()), Delete(ids), at)
      ensures sequence == at
      ensures Deleted(ids, old(points), points)
    {
      for n := 0 to |ids|
        invariant sequence == old(sequence)
        invariant points == old(points) - set id | id in ids[..n]
      {
        assert ids[..n + 1] == ids[..n] + [ids[n]];
        points := points - {ids[n]};
      }
      assert ids[..|ids|] == ids;
      sequence := at;
    }

    method ReplacePersistedPoints(mapped: Points)
      modifies this
      ensures View() == ReplacePersisted(old(View()), mapped)
      ensures sequence == old(sequence) && points.Keys == old(points).Keys
      ensures forall id :: id in points ==>
        points[id] == (if id in mapped && mapped[id].sequence == old(points)[id].sequence
                       then mapped[id] else old(points)[id])
    {
      var rest := mapped.Keys;
      while rest != {}
        invariant rest <= mapped.Keys && sequence == old(sequence) && points.Keys == old(points).Keys
        invariant forall id :: id in points ==>
          points[id] == (if id in mapped && id !in rest && mapped[id].sequence == old(points)[id].sequence
                         then mapped[id] else old(points)[id])
        decreases rest
      {
        var id :| id in rest;
        if id in points && points[id].sequence == mapped[id].sequence {
          points := points[id := mapped[id]];
        }
        rest := rest - {id};
      }
    }

    /** `search_ids`. */
    method SearchIds(query: Vector, k: nat, ids: set<Id>, filter: Option<Filter>) returns (r: Result<seq<Hit>>)
      requires WellKeyed(points)
      ensures var q := CheckQuery(cfg, k, query);
        && (q.Err? ==> r == Err(q.error))
        && (q.Ok? ==> r.Ok? && IsTopK(r.value, HitsAmong(points, ids, filter, ScoreBy(cfg, q.value)), k))
      ensures ExactAnswer(cfg, points, ids, query, k, filter, r)
    {
      if k == 0 {
        return Err(InvalidQuery);
      }
      if |query| != cfg.dimension {
        return Err(InvalidDimension);
      }
      var q := cfg.prepare(query);
      if q.None? {
        return Err(InvalidVector);
      }
      var hits := RankIds(points, k, ids, filter, ScoreBy(cfg, q.value));
      r := Ok(hits);
      TopKIsAnswer(cfg, points, ids, query, k, filter, r);
    }

    /** `search`: the exact oracle every other plan is measured against. */
    method Search(query: Vector, k: nat, filter: Option<Filter>) returns (r: Result<seq<Hit>>)
      requires WellKeyed(points)
      ensures var q := CheckQuery(cfg, k, query);
        && (q.Err? ==> r == Err(q.error))
        && (q.Ok? ==> r.Ok? && IsTopK(r.value, AllHits(points, filter, ScoreBy(cfg, q.value)), k))
      ensures ExactAnswer(cfg, points, points.Keys, query, k, filter, r)
    {
      r := SearchIds(query, k, points.Keys, filter);
    }
  }
}
