/**
 What building the graph does to its links: an insertion links back every planned
 neighbour, a list that grows too long keeps its best members, points are planned
 against the graph of all points before their batch, and a small set of points
 ends up linked both ways.
 */
module HnswLinks {
  import opened Base
  import opened Orders
  import opened GraphSearch
  import opened BestFirst
  import opened Ranking
  import opened HnswGraphs
  import opened HnswInsertion
  import opened HnswScores
  import opened HnswBuild

  // ----- pruning ---------------------------------------------------------

  /** `now` keeps `limit` of the members of `list`, diverse ones first, as seen from node `i`. */
  ghost predicate Keeps(sp: Space, i: nat, limit: nat, list: seq<nat>, now: seq<nat>) {
    && |now| == limit && Distinct(now) && (forall t :: t in now ==> t in list)
    && exists candidates, d: nat ::
         ListsByScore(sp, i, Members(list), candidates) && TakesFirst(sp, i, candidates, limit, now, d)
  }

  /** A list within its limit stays; a longer one keeps exactly as many as the limit allows. */
  ghost predicate PrunedTo(sp: Space, p: Params, i: nat, layer: nat, list: seq<nat>, now: seq<nat>) {
    var limit := if layer == 0 then 2 * p.m else p.m;
    if |list| <= limit then now == list else Keeps(sp, i, limit, list, now)
  }

  lemma PruneMeans(sp: Space, p: Params, n: nat, i: nat, layer: nat, list: seq<nat>)
    requires ValidSpace(sp) && ListOk(sp, n, i, layer, list)
    ensures PrunedTo(sp, p, i, layer, list, Prune(sp, p, i, layer, list))
  {
    var limit := MaxConnections(p, layer);
    if |list| > limit {
      var r, all := SortOrder(sp, i), Members(list);
      var candidates := Sorted(r, all);
      SortOrderIsStrict(sp, i, n);
      SortedIs(r, n, all);
      AscendingIsDistinct(r, n, candidates);
      SelectIs(sp, i, candidates, limit);
      SortedListsByScore(sp, i, n, all);
      DistinctMembers(list);
      var d := SelectTakesFirst(sp, i, candidates, limit);
      PruneIs(sp, p, n, i, layer, list);
    }
  }

  lemma {:induction false} DistinctMembers(list: seq<nat>)
    requires Distinct(list)
    ensures |Members(list)| == |list|
    decreases |list|
  {
    if list != [] {
      var init, last := list[..|list| - 1], list[|list| - 1];
      DistinctMembers(init);
      assert list == init + [last];
      assert Members(list) == Members(init) + {last};
    }
  }

  // ----- insertion -------------------------------------------------------

  /** `now` is the list of node `i` after `q` was linked back to it. */
  ghost predicate LinksBack(sp: Space, p: Params, i: nat, layer: nat, list: seq<nat>, q: nat, now: seq<nat>) {
    var limit := if layer == 0 then 2 * p.m else p.m;
    if |list| + 1 < 2 * limit then now == list + [q] else Keeps(sp, i, limit, list + [q], now)
  }

  /** Node `i` before and after the insertion of point `q`: planned neighbours link back, nothing else changes. */
  ghost predicate NodeLinked(sp: Space, p: Params, plan: seq<seq<nat>>, i: nat, q: nat, node: Node, now: Node) {
    && now.level == node.level && |now.neighbors| == |node.neighbors|
    && forall layer: nat {:trigger now.neighbors[layer]} :: layer < |node.neighbors| ==>
         if layer < |plan| && i in plan[layer]
         then LinksBack(sp, p, i, layer, node.neighbors[layer], q, now.neighbors[layer])
         else now.neighbors[layer] == node.neighbors[layer]
  }

  /** `after` is `before` with the next point inserted by `plan`. */
  ghost predicate Inserted(sp: Space, p: Params, before: Graph, plan: seq<seq<nat>>, after: Graph)
    requires |before.nodes| < |sp.levels|
  {
    var q := |before.nodes|;
    && |after.nodes| == q + 1 && after.nodes[q].level == sp.levels[q]
    && (if q == 0 then
          && |after.nodes[0].neighbors| == sp.levels[0] + 1
          && forall l :: 0 <= l < |after.nodes[0].neighbors| ==> after.nodes[0].neighbors[l] == []
        else
          && after.nodes[q].neighbors == plan
          && forall i: nat {:trigger after.nodes[i]} :: i < q ==>
               NodeLinked(sp, p, plan, i, q, before.nodes[i], after.nodes[i]))
    && (if q == 0 || sp.levels[q] > before.maxLevel then after.entry == Some(q) && after.maxLevel == sp.levels[q]
        else after.entry == before.entry && after.maxLevel == before.maxLevel)
  }

  lemma LinkedMeans(sp: Space, p: Params, n: nat, i: nat, layer: nat, list: seq<nat>)
    requires ValidSpace(sp) && ValidParams(p) && ListOk(sp, n, i, layer, list)
    requires i < n < |sp.levels| && sp.levels[n] >= layer
    ensures LinksBack(sp, p, i, layer, list, n, Linked(sp, p, i, layer, list, n))
  {
    var longer := list + [n];
    assert n !in list;
    assert ListOk(sp, n + 1, i, layer, longer);
    PruneMeans(sp, p, n + 1, i, layer, longer);
  }

  lemma LinkedNodeMeans(sp: Space, p: Params, g: Graph, plan: seq<seq<nat>>, i: nat)
    requires WellFormed(sp, g) && ValidParams(p) && i < |g.nodes| < |sp.ids|
    requires PlanOk(sp, p, |g.nodes|, |g.nodes|, plan)
    ensures NodeLinked(sp, p, plan, i, |g.nodes|, g.nodes[i], LinkedNode(sp, p, g.nodes, plan, i))
  {
    var n, node, now := |g.nodes|, g.nodes[i], LinkedNode(sp, p, g.nodes, plan, i);
    forall layer: nat | layer < |node.neighbors| && layer < |plan| && i in plan[layer]
      ensures LinksBack(sp, p, i, layer, node.neighbors[layer], n, now.neighbors[layer])
    {
      LinksAreOk(sp, g, layer, i);
      LinkedMeans(sp, p, n, i, layer, Adjacent(g.nodes, i, layer));
    }
  }

  /** An insertion in terms of the lists before and after it. */
  lemma InsertMeans(sp: Space, p: Params, g: Graph, plan: seq<seq<nat>>)
    requires WellFormed(sp, g) && ValidParams(p) && |g.nodes| < |sp.ids|
    requires PlanOk(sp, p, |g.nodes|, |g.nodes|, plan)
    ensures Inserted(sp, p, g, plan, Insert(sp, p, g, plan))
  {
    var after := Insert(sp, p, g, plan);
    if g.nodes != [] {
      forall i: nat | i < |g.nodes| ensures NodeLinked(sp, p, plan, i, |g.nodes|, g.nodes[i], after.nodes[i]) {
        LinkedNodeMeans(sp, p, g, plan, i);
      }
    }
  }

  // ----- compaction ------------------------------------------------------

  /** Compaction prunes every list and changes nothing else. */
  ghost predicate AllPruned(sp: Space, p: Params, before: Graph, after: Graph) {
    && after.entry == before.entry && after.maxLevel == before.maxLevel && |after.nodes| == |before.nodes|
    && forall i: nat {:trigger after.nodes[i]} :: i < |after.nodes| ==>
         NodePruned(sp, p, i, before.nodes[i], after.nodes[i])
  }

  ghost predicate NodePruned(sp: Space, p: Params, i: nat, node: Node, now: Node) {
    && now.level == node.level && |now.neighbors| == |node.neighbors|
    && forall layer: nat {:trigger now.neighbors[layer]} :: layer < |node.neighbors| ==>
         PrunedTo(sp, p, i, layer, node.neighbors[layer], now.neighbors[layer])
  }

  lemma CompactedMeans(sp: Space, p: Params, g: Graph)
    requires WellFormed(sp, g)
    ensures AllPruned(sp, p, g, Compacted(sp, p, g))
  {
    var after := Compacted(sp, p, g);
    forall i: nat | i < |g.nodes| ensures NodePruned(sp, p, i, g.nodes[i], after.nodes[i]) {
      forall layer: nat | layer < |g.nodes[i].neighbors|
        ensures PrunedTo(sp, p, i, layer, g.nodes[i].neighbors[layer], after.nodes[i].neighbors[layer])
      {
        LinksAreOk(sp, g, layer, i);
        PruneMeans(sp, p, |g.nodes|, i, layer, Adjacent(g.nodes, i, layer));
      }
    }
  }

  // ----- the order of planning -------------------------------------------

  /** How many points the graph held that point `q` was planned against. */
  function PlanBase(q: nat): (b: nat)
    ensures b <= q && (q > 0 ==> b > 0)
  {
    if q < 4096 then q else 4096 + (q - 4096) / 512 * 512
  }

  /** `gs[q + 1]` is `gs[q]` with point `q` inserted by its plan against `gs[PlanBase(q)]`. */
  ghost predicate GrowsAt(sp: Space, p: Params, f: Planner, gs: seq<Graph>, q: nat) {
    && q + 1 < |gs| && |gs[q].nodes| == q < |sp.levels|
    && gs[q + 1] == Insert(sp, p, gs[q], f(gs[PlanBase(q)], q))
  }

  ghost predicate GraphAt(sp: Space, gs: seq<Graph>, i: nat)
    requires i < |gs|
  {
    WellFormed(sp, gs[i]) && |gs[i].nodes| == i
  }

  ghost predicate Grows(sp: Space, p: Params, f: Planner, gs: seq<Graph>) {
    && 0 < |gs| <= |sp.ids| + 1 && gs[0] == NO_GRAPH
    && (forall i: nat {:trigger GraphAt(sp, gs, i)} :: i < |gs| ==> GraphAt(sp, gs, i))
    && forall q: nat {:trigger GrowsAt(sp, p, f, gs, q)} :: q + 1 < |gs| ==> GrowsAt(sp, p, f, gs, q)
  }

  lemma GrowsOne(sp: Space, p: Params, f: Planner, gs: seq<Graph>, base: nat)
    requires Sound(sp, p, f) && Grows(sp, p, f, gs) && |gs| <= |sp.ids|
    requires base == PlanBase(|gs| - 1)
    ensures GraphAt(sp, gs, |gs| - 1)
    ensures var q := |gs| - 1;
      Grows(sp, p, f, gs + [Insert(sp, p, gs[q], f(gs[base], q))])
  {
    var q := |gs| - 1;
    var plan := f(gs[base], q);
    assert GraphAt(sp, gs, base) && GraphAt(sp, gs, q);
    var longer := gs + [Insert(sp, p, gs[q], plan)];
    PlanGrows(sp, p, base, q, plan);
    InsertKeeps(sp, p, gs[q], plan);
    forall i: nat | i < |longer| ensures GraphAt(sp, longer, i) {
      if i <= q { assert GraphAt(sp, gs, i); }
    }
    forall i: nat | i + 1 < |longer| ensures GrowsAt(sp, p, f, longer, i) {
      if i < q { assert GrowsAt(sp, p, f, gs, i); }
    }
  }

  /** The `count` points from `base` on are planned against the graph of the first `base` points. */
  ghost predicate OneBatch(base: nat, count: nat) {
    forall q :: base <= q < base + count ==> PlanBase(q) == base
  }

  lemma BatchOf512(batches: nat, count: nat)
    requires count <= 512
    ensures OneBatch(4096 + 512 * batches, count)
  {
    forall q: nat | 4096 + 512 * batches <= q < 4096 + 512 * batches + count
      ensures PlanBase(q) == 4096 + 512 * batches
    {
      assert (q - 4096) / 512 == batches;
    }
  }

  /** Every point of a batch is planned against the graph from before the batch. */
  lemma {:induction false} BatchedGrows(sp: Space, p: Params, f: Planner, gs: seq<Graph>, count: nat)
    returns (more: seq<Graph>)
    requires Sound(sp, p, f) && Grows(sp, p, f, gs) && |gs| + count <= |sp.ids| + 1
    requires OneBatch(|gs| - 1, count)
    ensures Grows(sp, p, f, more) && |more| == |gs| + count && gs <= more
    ensures WellFormed(sp, gs[|gs| - 1]) && |gs[|gs| - 1].nodes| == |gs| - 1
    ensures more[|more| - 1] == Batched(sp, p, f, gs[|gs| - 1], count)
    decreases count
  {
    assert GraphAt(sp, gs, |gs| - 1);
    more := gs;
    if count > 0 {
      var before := BatchedGrows(sp, p, f, gs, count - 1);
      assert PlanBase(|before| - 1) == |gs| - 1;
      GrowsOne(sp, p, f, before, |gs| - 1);
      var q := |before| - 1;
      assert GraphAt(sp, before, q);
      assert before[|gs| - 1] == gs[|gs| - 1];
      more := before + [Insert(sp, p, before[q], f(before[|gs| - 1], q))];
    }
  }

  lemma NothingGrows(sp: Space, p: Params, f: Planner)
    requires ValidSpace(sp)
    ensures Grows(sp, p, f, [NO_GRAPH])
  {
    assert GraphAt(sp, [NO_GRAPH], 0);
  }

  lemma {:induction false} SeededGrows(sp: Space, p: Params, f: Planner, count: nat) returns (gs: seq<Graph>)
    requires ValidSpace(sp) && Sound(sp, p, f) && count <= |sp.ids| && count <= 4096
    ensures Grows(sp, p, f, gs) && |gs| == count + 1 && gs[count] == Seeded(sp, p, f, count)
    decreases count
  {
    if count == 0 {
      gs := [NO_GRAPH];
      NothingGrows(sp, p, f);
    } else {
      var before := SeededGrows(sp, p, f, count - 1);
      gs := BatchedGrows(sp, p, f, before, 1);
    }
  }

  lemma NextBatchGrows(sp: Space, p: Params, f: Planner, gs: seq<Graph>, batches: nat)
    returns (next: seq<Graph>)
    requires Sound(sp, p, f) && Grows(sp, p, f, gs)
    requires |gs| <= |sp.ids| && |gs| - 1 == 4096 + 512 * batches
    ensures Grows(sp, p, f, next) && |gs| < |next|
    ensures |next| == |sp.ids| + 1 || |next| - 1 == 4096 + 512 * (batches + 1)
    ensures WellFormed(sp, gs[|gs| - 1]) && |gs[|gs| - 1].nodes| == |gs| - 1
    ensures next[|next| - 1]
         == Batched(sp, p, f, gs[|gs| - 1], Min(PARALLEL_BUILD_BATCH, |sp.ids| - |gs[|gs| - 1].nodes|))
  {
    assert GraphAt(sp, gs, |gs| - 1);
    var count := Min(PARALLEL_BUILD_BATCH, |sp.ids| - |gs[|gs| - 1].nodes|);
    BatchOf512(batches, count);
    next := BatchedGrows(sp, p, f, gs, count);
  }

  lemma {:induction false} CompletedGrows(sp: Space, p: Params, f: Planner, gs: seq<Graph>, batches: nat)
    returns (more: seq<Graph>)
    requires Sound(sp, p, f) && Grows(sp, p, f, gs)
    requires |gs| == |sp.ids| + 1 || |gs| - 1 == 4096 + 512 * batches
    ensures Grows(sp, p, f, more) && |more| == |sp.ids| + 1
    ensures WellFormed(sp, gs[|gs| - 1]) && more[|sp.ids|] == Completed(sp, p, f, gs[|gs| - 1])
    decreases |sp.ids| + 1 - |gs|
  {
    assert GraphAt(sp, gs, |gs| - 1);
    if |gs| == |sp.ids| + 1 {
      more := gs;
    } else {
      var next := NextBatchGrows(sp, p, f, gs, batches);
      more := CompletedGrows(sp, p, f, next, batches + 1);
    }
  }

  /**
   The build in order: one of the first 4096 points is planned against all points before it, a later
   one against all points before its batch of 512.
   */
  lemma BuildGrows(sp: Space, p: Params, f: Planner) returns (gs: seq<Graph>)
    requires ValidSpace(sp) && Sound(sp, p, f)
    ensures Grows(sp, p, f, gs) && |gs| == |sp.ids| + 1 && gs[|sp.ids|] == Grown(sp, p, f)
  {
    var seed := Min(PARALLEL_BUILD_SEED, |sp.ids|);
    var first := SeededGrows(sp, p, f, seed);
    gs := CompletedGrows(sp, p, f, first, 0);
  }

  // ----- small graphs ----------------------------------------------------

  /** The first `n` nodes. */
  function Below(n: nat): (s: set<nat>)
    ensures |s| == n && forall x: nat :: x in s <==> x < n
  {
    if n == 0 then {} else Below(n - 1) + {n - 1}
  }

  /** One of the two points was planned when the graph already held the other. */
  predicate Met(a: nat, b: nat) {
    if a < b then a < PlanBase(b) else b < PlanBase(a)
  }

  ghost function MetBy(a: nat, n: nat): set<nat> { set b: nat | b < n && b != a && Met(a, b) }

  /** On the base layer each of the first `n` nodes links to the points that it met, and to no other. */
  ghost predicate LinksAllMet(nodes: seq<Node>) {
    forall a: nat {:trigger Adjacent(nodes, a, 0)} ::
      a < |nodes| ==> Members(Adjacent(nodes, a, 0)) == MetBy(a, |nodes|)
  }

  /** Every node is one link away from the first one, so that any of them reaches all. */
  lemma AllReach(sp: Space, g: Graph, entry: nat)
    requires WellFormed(sp, g) && LinksAllMet(g.nodes) && entry < |g.nodes|
    ensures Reachable(LayerLinks(g.nodes, 0), |g.nodes|, entry) == Below(|g.nodes|)
  {
    var links := LayerLinks(g.nodes, 0);
    forall x: nat | x < |g.nodes| ensures Reaches(links, entry, x) {
      assert Walk(links, [entry], entry) && [entry][|[entry]| - 1] == entry;
      if entry != 0 {
        assert 0 in Members(Adjacent(g.nodes, entry, 0));
        ReachesNext(links, entry, entry, 0);
      }
      if x != 0 {
        assert x in Members(Adjacent(g.nodes, 0, 0));
        ReachesNext(links, entry, 0, x);
      }
    }
  }

  lemma VisitsAll(sp: Space, g: Graph, q: nat, ef: nat, entry: nat)
    requires WellFormed(sp, g) && LinksAllMet(g.nodes) && entry < |g.nodes| <= ef
    ensures VisitedOn(sp, g, q, 0, ef, entry) == Below(|g.nodes|)
  {
    var n, r, links := |g.nodes|, HeapOrder(sp, q), LayerLinks(g.nodes, 0);
    LayerIsReady(sp, g, q, 0);
    AllReach(sp, g, entry);
    FoundIsTop(r, links, n, ef, entry);
    SearchIsBestFirst(r, links, n, ef, entry);
  }

  /** Taking as many as there are takes all. */
  lemma {:induction false} TakenAreCandidates(sp: Space, q: nat, candidates: seq<nat>, limit: nat, r: seq<nat>, d: nat)
    requires TakesFirst(sp, q, candidates, limit, r, d)
    ensures Distinct(r) && Members(r) <= Members(candidates)
  {
    forall i | 0 <= i < |r| ensures r[i] in candidates && r[i] !in r[..i] {
      assert i < d ==> TakesDiverse(sp, q, candidates, r, i);
      assert i >= d ==> TakesLeft(candidates, r, i);
    }
    forall a, b | 0 <= a < b < |r| ensures r[a] != r[b] {
      assert r[a] == r[..b][a];
    }
  }

  lemma TakesAll(sp: Space, q: nat, candidates: seq<nat>, limit: nat, r: seq<nat>, d: nat)
    requires TakesFirst(sp, q, candidates, limit, r, d) && |Members(candidates)| == |candidates| <= limit
    ensures Members(r) == Members(candidates)
  {
    TakenAreCandidates(sp, q, candidates, limit, r, d);
    DistinctMembers(r);
    SameSize(Members(r), Members(candidates));
  }

  lemma KeepsAll(sp: Space, q: nat, ef: nat, visited: set<nat>, found: set<nat>)
    requires KeepsBest(sp, q, ef, visited, found) && |visited| <= ef
    ensures found == visited
  {
    SameSize(found, visited);
  }

  lemma ChosenAmongFew(sp: Space, q: nat, ef: nat, limit: nat, visited: set<nat>, list: seq<nat>)
    requires ChosenAmong(sp, q, ef, limit, visited, list) && |visited| <= ef && |visited| <= limit
    ensures Members(list) == visited
  {
    var candidates, d: nat :| TakesFirst(sp, q, candidates, limit, list, d)
      && ListsByScore(sp, q, Members(candidates), candidates)
      && KeepsBest(sp, q, ef, visited, Members(candidates));
    KeepsAll(sp, q, ef, visited, Members(candidates));
    TakesAll(sp, q, candidates, limit, list, d);
  }

  lemma ChosenAreAll(sp: Space, p: Params, g: Graph, q: nat, entry: nat, list: seq<nat>)
    requires WellFormed(sp, g) && LinksAllMet(g.nodes) && entry < |g.nodes| <= p.ef && |g.nodes| <= 2 * p.m
    requires ChosenFrom(sp, p, g, q, entry, 0, list)
    ensures Members(list) == Below(|g.nodes|)
  {
    VisitsAll(sp, g, q, p.ef, entry);
    ChosenAmongFew(sp, q, p.ef, 2 * p.m, VisitedOn(sp, g, q, 0, p.ef, entry), list);
  }

  lemma SameSize(a: set<nat>, b: set<nat>)
    requires a <= b && |a| == |b|
    ensures a == b
  {
    SubsetSize(a, b);
  }

  /** The base layer of a plan is chosen from some node. */
  lemma {:induction false} PlansBase(
      sp: Space, p: Params, g: Graph, q: nat, entry: nat, layer: nat, plan: seq<seq<nat>>) returns (start: nat)
    requires WellFormed(sp, g) && PlansDown(sp, p, g, q, entry, layer, plan)
    ensures start < |g.nodes| && ChosenFrom(sp, p, g, q, start, 0, plan[0])
    decreases layer
  {
    if layer == 0 {
      start := entry;
    } else {
      start := PlansBase(sp, p, g, q, plan[layer][0], layer - 1, plan);
    }
  }

  /** Against a small graph every node is planned. */
  lemma PlansAll(sp: Space, p: Params, g: Graph, q: nat)
    requires WellFormed(sp, g) && ValidParams(p) && LinksAllMet(g.nodes) && q < |sp.ids|
    requires 0 < |g.nodes| <= p.ef && |g.nodes| <= 2 * p.m
    ensures |Plan(sp, p, g, q)| > 0 && Members(Plan(sp, p, g, q)[0]) == Below(|g.nodes|)
  {
    PlanMeans(sp, p, g, q);
    var plan := Plan(sp, p, g, q);
    var entry: nat :| PlansFrom(sp, p, g, q, entry, plan);
    var start := PlansBase(sp, p, g, q, entry, Min(sp.levels[q], g.maxLevel), plan);
    ChosenAreAll(sp, p, g, q, start, plan[0]);
  }

  lemma ShortList(sp: Space, g: Graph, i: nat)
    requires WellFormed(sp, g) && i < |g.nodes|
    ensures |Adjacent(g.nodes, i, 0)| < |g.nodes|
  {
    var list := Adjacent(g.nodes, i, 0);
    LinksAreOk(sp, g, 0, i);
    DistinctMembers(list);
    SubsetSize(Members(list), Below(|g.nodes|) - {i});
  }

  /** A point planned against all of the first `base` points links to them, and they link back. */
  lemma InsertLinksMet(sp: Space, p: Params, g: Graph, plan: seq<seq<nat>>, after: Graph)
    requires WellFormed(sp, g) && WellFormed(sp, after) && |g.nodes| < |sp.ids| && LinksAllMet(g.nodes)
    requires 0 < |g.nodes| < 2 * p.m && |plan| > 0 && Inserted(sp, p, g, plan, after)
    requires Members(plan[0]) == Below(PlanBase(|g.nodes|))
    ensures LinksAllMet(after.nodes)
  {
    var q := |g.nodes|;
    forall a: nat | a < q + 1 ensures Members(Adjacent(after.nodes, a, 0)) == MetBy(a, q + 1) {
      if a < q {
        assert NodeLinked(sp, p, plan, a, q, g.nodes[a], after.nodes[a]);
        assert NodeOk(sp, g.nodes, a);
        ShortList(sp, g, a);
        var list, now := Adjacent(g.nodes, a, 0), Adjacent(after.nodes, a, 0);
        assert now == after.nodes[a].neighbors[0];
        assert a in plan[0] <==> a in Members(plan[0]);
        assert now == if a < PlanBase(q) then list + [q] else list;
        assert Members(now) == if a < PlanBase(q) then Members(list) + {q} else Members(list);
        assert MetBy(a, q + 1) == if a < PlanBase(q) then MetBy(a, q) + {q} else MetBy(a, q);
      } else {
        assert Adjacent(after.nodes, q, 0) == plan[0];
      }
    }
  }

  lemma FirstLinksMet(sp: Space, p: Params, g: Graph, plan: seq<seq<nat>>, after: Graph)
    requires g.nodes == [] && |sp.levels| > 0 && Inserted(sp, p, g, plan, after)
    ensures LinksAllMet(after.nodes)
  {
    assert Adjacent(after.nodes, 0, 0) == [];
    assert MetBy(0, 1) == {};
  }

  lemma {:induction false} SmallGrowsLinked(sp: Space, p: Params, gs: seq<Graph>, n: nat)
    requires ValidParams(p) && |sp.ids| <= p.ef && |sp.ids| <= 2 * p.m
    requires Sound(sp, p, HnswPlanner(sp, p)) && Grows(sp, p, HnswPlanner(sp, p), gs) && n < |gs|
    ensures LinksAllMet(gs[n].nodes)
    decreases n
  {
    if n > 0 {
      var q := n - 1;
      var base := PlanBase(q);
      SmallGrowsLinked(sp, p, gs, q);
      SmallGrowsLinked(sp, p, gs, base);
      SmallStep(sp, p, gs, q);
    }
  }

  lemma SmallStep(sp: Space, p: Params, gs: seq<Graph>, q: nat)
    requires ValidParams(p) && |sp.ids| <= p.ef && |sp.ids| <= 2 * p.m
    requires Sound(sp, p, HnswPlanner(sp, p)) && Grows(sp, p, HnswPlanner(sp, p), gs) && q + 1 < |gs|
    requires LinksAllMet(gs[q].nodes) && LinksAllMet(gs[PlanBase(q)].nodes)
    ensures LinksAllMet(gs[q + 1].nodes)
  {
    var f, base := HnswPlanner(sp, p), PlanBase(q);
    assert GrowsAt(sp, p, f, gs, q);
    var g, b := gs[q], gs[base];
    var plan := f(b, q);
    assert GraphAt(sp, gs, base) && GraphAt(sp, gs, q) && GraphAt(sp, gs, q + 1);
    PlanGrows(sp, p, base, q, plan);
    InsertMeans(sp, p, g, plan);
    if q == 0 {
      FirstLinksMet(sp, p, g, plan, gs[1]);
    } else {
      PlansAll(sp, p, b, q);
      InsertLinksMet(sp, p, g, plan, gs[q + 1]);
    }
  }

  lemma CompactedStays(sp: Space, p: Params, g: Graph)
    requires WellFormed(sp, g) && LinksAllMet(g.nodes) && |g.nodes| <= 2 * p.m
    ensures LinksAllMet(Compacted(sp, p, g).nodes)
  {
    var after := Compacted(sp, p, g).nodes;
    forall a: nat | a < |after| ensures Adjacent(after, a, 0) == Adjacent(g.nodes, a, 0) {
      assert NodeOk(sp, g.nodes, a);
      ShortList(sp, g, a);
    }
  }

  /**
   With at most `min(ef, 2m)` points, two nodes are linked both ways on the base layer if and only if
   the earlier one was in the graph when the later one was planned. Among the first 4096 points that
   is every pair; two points of one later batch are not linked.
   */
  lemma SmallBuildIsLinked(sp: Space, p: Params)
    requires ValidSpace(sp) && ValidParams(p) && |sp.ids| <= p.ef && |sp.ids| <= 2 * p.m
    ensures LinksAllMet(Built(sp, p).nodes)
  {
    var f := HnswPlanner(sp, p);
    HnswPlannerIsSound(sp, p);
    var gs := BuildGrows(sp, p, f);
    SmallGrowsLinked(sp, p, gs, |sp.ids|);
    assert GraphAt(sp, gs, |sp.ids|);
    CompactedStays(sp, p, Grown(sp, p, f));
  }

  /** Among the first 4096 points every two have met. */
  lemma AllHaveMet(nodes: seq<Node>)
    requires LinksAllMet(nodes) && |nodes| <= 4096
    ensures forall a: nat, b: nat :: a < |nodes| && b < |nodes| && a != b ==> b in Adjacent(nodes, a, 0)
  {
    forall a: nat, b: nat | a < |nodes| && b < |nodes| && a != b ensures b in Adjacent(nodes, a, 0) {
      assert b in MetBy(a, |nodes|);
      assert b in Members(Adjacent(nodes, a, 0));
    }
  }
}
