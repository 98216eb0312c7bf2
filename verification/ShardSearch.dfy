/**
 Search on a replica. The graph may return any subset of the indexed IDs;
 filtered queries nevertheless return as many distinct matching hits as exist,
 up to `k`, because the plan widens and then falls back to the exact candidates.
 */
module ShardSearch {
  import opened Base
  import opened Filters
  import opened Collections
  import opened MetadataIndexes
  import opened CollectionStore
  import opened Ranking
  import opened TopK
  import opened FilteredSearch

  /** The clean hits among the IDs a graph search returned. */
  ghost function CleanHits(points: Points, dirty: set<Id>, found: set<Id>, filter: Option<Filter>, score: Vector -> int)
    : set<Hit>
  {
    HitsAmong(points, found - dirty, filter, score)
  }

  /** One round of graph search: screen the returned IDs and rescore them with the live vectors. */
  method ScreenHits(
      points: Points, ghost indexed: Points, dirty: set<Id>, found: set<Id>, filter: Option<Filter>,
      score: Vector -> int)
    returns (r: Result<seq<Hit>>)
    requires WellKeyed(points) && AgreeOutside(indexed, points, dirty) && found <= indexed.Keys
    ensures r.Ok? && DistinctIds(r.value) && Elements(r.value) == CleanHits(points, dirty, found, filter, score)
  {
    var hits: seq<Hit> := [];
    var rest := found;
    while rest != {}
      invariant rest <= found && DistinctIds(hits)
      invariant Elements(hits) == CleanHits(points, dirty, found - rest, filter, score)
      decreases rest
    {
      var id :| id in rest;
      if id !in dirty {
        assert SameOn(indexed, points, id);
        if id !in points {
          return Err(CorruptStorage);
        }
        if Passes(filter, points[id]) {
          forall i | 0 <= i < |hits| ensures hits[i].id != id { assert hits[i] in Elements(hits); }
          ElementsAppend(hits, HitOf(points[id], score));
          hits := hits + [HitOf(points[id], score)];
        }
      }
      rest := rest - {id};
    }
    assert found - rest == found;
    r := Ok(hits);
  }

  lemma {:induction false} DistinctSize(hits: seq<Hit>)
    requires DistinctIds(hits)
    ensures |Elements(hits)| == |hits|
    decreases |hits|
  {
    if hits != [] {
      var init, last := hits[..|hits| - 1], hits[|hits| - 1];
      DistinctSize(init);
      assert hits == init + [last];
      ElementsAppend(init, last);
    }
  }

  lemma CleanHitsAreHits(points: Points, dirty: set<Id>, found: set<Id>, filter: Option<Filter>, score: Vector -> int)
    requires WellKeyed(points)
    ensures CleanHits(points, dirty, found, filter, score) <= AllHits(points, filter, score)
    ensures OnePerId(AllHits(points, filter, score))
  {
    HitsAreOnePerId(points, points.Keys, filter, score);
  }

  function Max(a: nat, b: nat): nat { if a < b then b else a }

  /** The width of round `j`: each round doubles it, up to the number of nodes. */
  function WidthOf(start: nat, nodes: nat, j: nat): nat {
    if j == 0 then start else Min(2 * WidthOf(start, nodes, j - 1), nodes)
  }

  /** A search of this width yields `k` clean hits. */
  ghost predicate Suffices(
      points: Points, dirty: set<Id>, k: nat, filter: Option<Filter>, score: Vector -> int, graph: nat -> set<Id>,
      width: nat)
  {
    |CleanHits(points, dirty, graph(width), filter, score)| >= k
  }

  /** Round `j` is the first that suffices, or the first that asks for the whole graph. */
  ghost predicate StopsAt(
      points: Points, nodes: nat, dirty: set<Id>, k: nat, filter: Option<Filter>, score: Vector -> int,
      graph: nat -> set<Id>, start: nat, j: nat)
  {
    && (Suffices(points, dirty, k, filter, score, graph, WidthOf(start, nodes, j)) || WidthOf(start, nodes, j) == nodes)
    && forall i: nat {:trigger WidthOf(start, nodes, i)} :: i < j ==>
         WidthOf(start, nodes, i) < nodes
         && !Suffices(points, dirty, k, filter, score, graph, WidthOf(start, nodes, i))
  }

  /** Widens the graph search until enough hits match or the whole graph was asked for. */
  method Widen(
      points: Points, ghost indexed: Points, nodes: nat, dirty: set<Id>, k: nat, start: nat, filter: Option<Filter>,
      score: Vector -> int, graph: nat -> set<Id>)
    returns (r: Result<seq<Hit>>, ghost width: nat, ghost rounds: nat)
    requires WellKeyed(points) && AgreeOutside(indexed, points, dirty)
    requires nodes == |indexed| && start <= nodes && (nodes > 0 ==> start > 0)
    requires forall g :: graph(g) <= indexed.Keys
    ensures r.Ok? && DistinctIds(r.value) && width <= nodes
    ensures nodes > 0 ==> Elements(r.value) == CleanHits(points, dirty, graph(width), filter, score)
    ensures nodes == 0 ==> r.value == []
    ensures filter.Some? && |r.value| < k ==> width == nodes
    ensures filter.None? ==> width == start
    ensures filter.Some? ==>
      width == WidthOf(start, nodes, rounds) && StopsAt(points, nodes, dirty, k, filter, score, graph, start, rounds)
  {
    r, width, rounds := Ok([]), start, 0;
    var graphK := start;
    while graphK > 0
      invariant 0 <= graphK <= nodes && (nodes > 0 ==> graphK > 0)
      invariant nodes == 0 ==> r == Ok([]) && width == 0
      invariant graphK == WidthOf(start, nodes, rounds) && (filter.None? ==> graphK == start)
      invariant forall i: nat {:trigger WidthOf(start, nodes, i)} :: i < rounds ==>
        WidthOf(start, nodes, i) < nodes
        && !Suffices(points, dirty, k, filter, score, graph, WidthOf(start, nodes, i))
      invariant nodes == 0 ==> rounds == 0
      decreases nodes - graphK
    {
      r := ScreenHits(points, indexed, dirty, graph(graphK), filter, score);
      width := graphK;
      DistinctSize(r.value);
      if r.Err? || filter.None? || |r.value| >= k || graphK == nodes {
        break;
      }
      graphK := Min(graphK * 2, nodes);
      rounds := rounds + 1;
    }
  }

  lemma FallbackIsExact(
      points: Points, indexed: Points, dirty: set<Id>, f: Filter, score: Vector -> int, k: nat,
      graphHits: seq<Hit>, clean: seq<Hit>, pending: seq<Hit>, r: seq<Hit>)
    requires WellKeyed(points) && AgreeOutside(indexed, points, dirty)
    requires Elements(graphHits) <= AllHits(points, Some(f), score)
    requires IsTopK(clean, HitsAmong(points, CleanMatches(indexed, dirty, f), Some(f), score), k)
    requires IsTopK(pending, HitsAmong(points, dirty, Some(f), score), k)
    requires IsTopK(r, Elements(graphHits) + Elements(clean) + Elements(pending), k)
    ensures IsTopK(r, AllHits(points, Some(f), score), k)
  {
    var all := AllHits(points, Some(f), score);
    var left := HitsAmong(points, CleanMatches(indexed, dirty, f), Some(f), score);
    var right := HitsAmong(points, dirty, Some(f), score);
    var candidates := Elements(graphHits) + Elements(clean) + Elements(pending);
    CleanAndDirty(points, indexed, dirty, f, score);
    HitsAreOnePerId(points, points.Keys, Some(f), score);
    forall h | h in all && h !in candidates ensures Dominated(h, candidates, k) {
      if h in left {
        DroppedIsDominated(clean, left, k, h, candidates);
      } else {
        DroppedIsDominated(pending, right, k, h, candidates);
      }
    }
    TopKOfCandidates(r, candidates, all, k);
  }

  /** With `k` hits already found, the best `k` of any larger set of hits are `k` again. */
  lemma EnoughHits(
      points: Points, filter: Option<Filter>, score: Vector -> int, k: nat, found: seq<Hit>, some: set<Hit>,
      r: seq<Hit>)
    requires DistinctIds(found) && |found| >= k && Elements(found) <= some <= AllHits(points, filter, score)
    requires IsTopK(r, some, k)
    ensures |r| == Min(k, |AllHits(points, filter, score)|)
  {
    DistinctSize(found);
    SubsetSize(Elements(found), some);
    SubsetSize(some, AllHits(points, filter, score));
  }

  /** Of the dirty points, only the best `k` can be among the best `k` of all. */
  lemma GraphAndDirty(
      points: Points, filter: Option<Filter>, score: Vector -> int, k: nat, dirty: set<Id>, graphHits: seq<Hit>,
      pending: seq<Hit>, r: seq<Hit>)
    requires WellKeyed(points) && Elements(graphHits) <= AllHits(points, filter, score)
    requires IsTopK(pending, HitsAmong(points, dirty, filter, score), k)
    requires IsTopK(r, Elements(graphHits) + Elements(pending), k)
    ensures IsTopK(r, Elements(graphHits) + HitsAmong(points, dirty, filter, score), k)
  {
    var left, right := Elements(graphHits), HitsAmong(points, dirty, filter, score);
    HitsAreOnePerId(points, points.Keys, filter, score);
    assert left + right <= AllHits(points, filter, score);
    HalfMergeTopK(left, pending, right, r, k);
  }

  /** The graph fell short of `k` hits: the exact candidates fill in. */
  method MergeAll(
      points: Points, ghost indexed: Points, candidates: set<Id>, dirty: set<Id>, k: nat, f: Filter,
      score: Vector -> int, graphHits: seq<Hit>)
    returns (r: seq<Hit>)
    requires WellKeyed(points) && AgreeOutside(indexed, points, dirty)
    requires candidates == CleanMatches(indexed, dirty, f)
    requires Elements(graphHits) <= AllHits(points, Some(f), score)
    ensures IsTopK(r, AllHits(points, Some(f), score), k)
  {
    var pending := RankIds(points, k, dirty, Some(f), score);
    CleanAndDirty(points, indexed, dirty, f, score);
    HitsAreOnePerId(points, points.Keys, Some(f), score);
    var clean := RankIds(points, k, candidates, Some(f), score);
    var hits := graphHits + clean;
    ElementsConcat(graphHits, clean);
    ElementsConcat(hits, pending);
    r := MergeHits(hits + pending, k);
    FallbackIsExact(points, indexed, dirty, f, score, k, graphHits, clean, pending, r);
  }

  /** The graph yielded enough: its hits meet the dirty points. */
  method MergeDirty(points: Points, dirty: set<Id>, k: nat, f: Filter, score: Vector -> int, graphHits: seq<Hit>)
    returns (r: seq<Hit>)
    requires WellKeyed(points) && DistinctIds(graphHits) && |graphHits| >= k
    requires Elements(graphHits) <= AllHits(points, Some(f), score)
    ensures IsTopK(r, Elements(graphHits) + HitsAmong(points, dirty, Some(f), score), k)
    ensures |r| == Min(k, |AllHits(points, Some(f), score)|)
  {
    var pending := RankIds(points, k, dirty, Some(f), score);
    HitsAreOnePerId(points, points.Keys, Some(f), score);
    ElementsConcat(graphHits, pending);
    r := MergeHits(graphHits + pending, k);
    GraphAndDirty(points, Some(f), score, k, dirty, graphHits, pending, r);
    EnoughHits(points, Some(f), score, k, graphHits, Elements(graphHits + pending), r);
  }

  predicate UseExact(candidates: nat, nodes: nat, k: nat) {
    candidates * 4 < nodes || candidates <= Max(k * 16, 256)
  }

  /**
   The numbers that decide for the exact plan: at most 256 clean candidates, or at most sixteen
   for each hit wanted, or fewer than a quarter of the nodes.
   */
  ghost predicate FewCandidates(candidates: nat, nodes: nat, k: nat) {
    candidates <= 256 || candidates <= 16 * k || 4 * candidates < nodes
  }

  /** The answer of the graph plan: the best of what the last round and the dirty points yield. */
  ghost predicate GraphAnswer(
      points: Points, nodes: nat, dirty: set<Id>, k: nat, ef: nat, f: Filter, score: Vector -> int,
      graph: nat -> set<Id>, rounds: nat, r: seq<Hit>)
  {
    var start := Min((if ef < 32 * k then 32 * k else ef) + |dirty|, nodes);
    var width := WidthOf(start, nodes, rounds);
    && StopsAt(points, nodes, dirty, k, Some(f), score, graph, start, rounds)
    && (if Suffices(points, dirty, k, Some(f), score, graph, width)
        then IsTopK(r, CleanHits(points, dirty, graph(width), Some(f), score)
                       + HitsAmong(points, dirty, Some(f), score), k)
        else IsTopK(r, AllHits(points, Some(f), score), k))
  }

  /** The hits a filtered search guarantees by either plan: as many as there are, up to `k`, and all matching. */
  ghost predicate FullAnswer(points: Points, k: nat, f: Filter, score: Vector -> int, r: seq<Hit>) {
    Ranked(r) && Elements(r) <= AllHits(points, Some(f), score) && |r| == Min(k, |AllHits(points, Some(f), score)|)
  }

  /** The graph plan: widen, then merge with the dirty points and, if the graph fell short, with the candidates. */
  method PlanByGraph(
      points: Points, ghost indexed: Points, candidates: set<Id>, nodes: nat, dirty: set<Id>, k: nat, ef: nat,
      f: Filter, score: Vector -> int, graph: nat -> set<Id>)
    returns (r: Result<seq<Hit>>)
    requires WellKeyed(points) && AgreeOutside(indexed, points, dirty) && k > 0
    requires candidates == CleanMatches(indexed, dirty, f)
    requires nodes == |indexed| && forall g :: graph(g) <= indexed.Keys
    ensures r.Ok? && FullAnswer(points, k, f, score, r.value)
    ensures exists rounds: nat :: GraphAnswer(points, nodes, dirty, k, ef, f, score, graph, rounds, r.value)
  {
    var rerank := k * 4;
    var start := Min(Max(ef, rerank * 8) + |dirty|, nodes);
    var found, width, rounds := Widen(points, indexed, nodes, dirty, k, start, Some(f), score, graph);
    if found.Err? {
      return found;
    }
    CleanHitsAreHits(points, dirty, graph(width), Some(f), score);
    DistinctSize(found.value);
    if nodes == 0 { NoNodesNoHits(points, indexed, dirty, graph, f, score); }
    var hits;
    if |found.value| < k {
      hits := MergeAll(points, indexed, candidates, dirty, k, f, score, found.value);
    } else {
      hits := MergeDirty(points, dirty, k, f, score, found.value);
    }
    assert GraphAnswer(points, nodes, dirty, k, ef, f, score, graph, rounds, hits);
    r := Ok(hits);
  }

  lemma NoNodesNoHits(
      points: Points, indexed: Points, dirty: set<Id>, graph: nat -> set<Id>, f: Filter, score: Vector -> int)
    requires |indexed| == 0 && forall g :: graph(g) <= indexed.Keys
    ensures forall width :: CleanHits(points, dirty, graph(width), Some(f), score) == {}
  {
    forall width ensures CleanHits(points, dirty, graph(width), Some(f), score) == {} {
      assert indexed.Keys == {} && graph(width) == {};
    }
  }

  /**
   `search_with_ef` with a filter, on a replica that has indexes: exactly
   min(k, matches) distinct hits, all matching and all with current scores.
   `graph(g)` is what a graph search for `g` neighbours happens to return.
   */
  method SearchFiltered(
      cfg: Config, query: Vector, points: Points, index: Index, ghost indexed: Points, nodes: nat, dirty: set<Id>,
      k: nat, ef: nat, f: Filter, graph: nat -> set<Id>)
    returns (r: Result<seq<Hit>>)
    requires WellKeyed(points) && Indexes(index, indexed) && AgreeOutside(indexed, points, dirty)
    requires nodes == |indexed| && forall g :: graph(g) <= indexed.Keys
    ensures r.Err? <==> ef < k || CheckQuery(cfg, k, query).Err?
    ensures r.Ok? ==> var score := ScoreBy(cfg, CheckQuery(cfg, k, query).value);
      && FullAnswer(points, k, f, score, r.value)
      && (FewCandidates(|CleanMatches(indexed, dirty, f)|, nodes, k) ==>
            IsTopK(r.value, AllHits(points, Some(f), score), k))
      && (!FewCandidates(|CleanMatches(indexed, dirty, f)|, nodes, k) ==>
            exists rounds: nat :: GraphAnswer(points, nodes, dirty, k, ef, f, score, graph, rounds, r.value))
    ensures ef < k ==> r == Err(InvalidQuery)
    ensures ef >= k && FewCandidates(|CleanMatches(indexed, dirty, f)|, nodes, k) ==>
      ExactAnswer(cfg, points, points.Keys, query, k, Some(f), r)
    ensures ef >= k && !FewCandidates(|CleanMatches(indexed, dirty, f)|, nodes, k) && r.Err? ==>
      r.error == if cfg.prepare(query).None? then InvalidVector
                 else if |query| != cfg.dimension then InvalidDimension else InvalidQuery
  {
    if ef < k {
      return Err(InvalidQuery);
    }
    var candidates := CleanCandidates(index, indexed, dirty, f);
    if UseExact(|candidates|, nodes, k) {
      var q := CheckQuery(cfg, k, query);
      if q.Err? {
        return Err(q.error);
      }
      var exact := ExactPlan(points, index, indexed, dirty, k, f, ScoreBy(cfg, q.value));
      r := Ok(exact);
      TopKIsAnswer(cfg, points, points.Keys, query, k, Some(f), r);
      return;
    }
    var prepared := cfg.prepare(query);
    if prepared.None? {
      return Err(InvalidVector);
    }
    if |query| != cfg.dimension {
      return Err(InvalidDimension);
    }
    if k == 0 {
      return Err(InvalidQuery);
    }
    r := PlanByGraph(points, indexed, candidates, nodes, dirty, k, ef, f, ScoreBy(cfg, prepared.value), graph);
  }

  // ----- without a filter ------------------------------------------------

  /** What an unfiltered search ranks: the hits of one round of the graph, and the dirty points. */
  ghost function Offered(
      points: Points, nodes: nat, dirty: set<Id>, k: nat, score: Vector -> int, graph: nat -> set<Id>): set<Hit>
  {
    var width := Min(4 * k + |dirty|, nodes);
    (if width == 0 then {} else CleanHits(points, dirty, graph(width), None, score))
    + HitsAmong(points, dirty, None, score)
  }

  /** A graph that returns every indexed ID leaves nothing out. */
  lemma OfferedIsAll(
      points: Points, indexed: Points, nodes: nat, dirty: set<Id>, k: nat, score: Vector -> int, graph: nat -> set<Id>)
    requires AgreeOutside(indexed, points, dirty) && nodes == |indexed| && k > 0
    requires indexed.Keys <= graph(Min(4 * k + |dirty|, nodes))
    ensures Offered(points, nodes, dirty, k, score, graph) == AllHits(points, None, score)
  {
    forall id | id in points ensures id in dirty || id in indexed {
      assert id !in dirty ==> SameOn(indexed, points, id);
    }
    if nodes == 0 { assert indexed.Keys == {}; }
  }

  /** `search_with_ef` without a filter, on a replica that has indexes. */
  method SearchUnfiltered(
      cfg: Config, query: Vector, points: Points, ghost indexed: Points, nodes: nat, dirty: set<Id>, k: nat, ef: nat,
      graph: nat -> set<Id>)
    returns (r: Result<seq<Hit>>)
    requires WellKeyed(points) && AgreeOutside(indexed, points, dirty)
    requires nodes == |indexed| && forall g :: graph(g) <= indexed.Keys
    ensures r.Err? <==> ef < k || CheckQuery(cfg, k, query).Err?
    ensures ef < k ==> r == Err(InvalidQuery)
    ensures ef >= k && cfg.prepare(query).None? ==> r == Err(InvalidVector)
    ensures r.Ok? ==> var score := ScoreBy(cfg, cfg.prepare(query).value);
      && IsTopK(r.value, Offered(points, nodes, dirty, k, score, graph), k)
      && (indexed.Keys <= graph(Min(4 * k + |dirty|, nodes)) ==> IsTopK(r.value, AllHits(points, None, score), k))
  {
    if ef < k {
      return Err(InvalidQuery);
    }
    var prepared := cfg.prepare(query);
    if prepared.None? {
      return Err(InvalidVector);
    }
    var width := Min(4 * k + |dirty|, nodes);
    if width > 0 && |query| != cfg.dimension {
      return Err(InvalidDimension);
    }
    if k == 0 {
      return Err(InvalidQuery);
    }
    if |query| != cfg.dimension {
      return Err(InvalidDimension);
    }
    var score := ScoreBy(cfg, prepared.value);
    var found, asked, rounds := Widen(points, indexed, nodes, dirty, k, width, None, score, graph);
    if found.Err? {
      return found;
    }
    CleanHitsAreHits(points, dirty, graph(width), None, score);
    var pending := RankIds(points, k, dirty, None, score);
    HitsAreOnePerId(points, points.Keys, None, score);
    ElementsConcat(found.value, pending);
    var hits := MergeHits(found.value + pending, k);
    GraphAndDirty(points, None, score, k, dirty, found.value, pending, hits);
    if indexed.Keys <= graph(width) { OfferedIsAll(points, indexed, nodes, dirty, k, score, graph); }
    r := Ok(hits);
  }
}
