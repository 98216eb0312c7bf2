/**
 Building the index: a serial seed, then batches whose plans are computed by
 several workers against the same frozen graph, then a final compaction. The
 graph is a function of the points alone.
 */
module HnswBuild {
  import opened Ranking
  import opened HnswGraphs
  import opened HnswInsertion

  const PARALLEL_BUILD_SEED: nat := 4096
  const PARALLEL_BUILD_BATCH: nat := 512

  // ----- planners --------------------------------------------------------

  /** The plan for a point against a graph. */
  type Planner = (Graph, nat) -> seq<seq<nat>>

  ghost function HnswPlanner(sp: Space, p: Params): Planner {
    (g: Graph, q: nat) => if WellFormed(sp, g) && ValidParams(p) && q < |sp.ids| then Plan(sp, p, g, q) else []
  }

  ghost predicate Sound(sp: Space, p: Params, f: Planner) {
    forall g: Graph, q: nat {:trigger f(g, q)} ::
      WellFormed(sp, g) && |g.nodes| <= q < |sp.ids| ==> PlanOk(sp, p, |g.nodes|, q, f(g, q))
  }

  lemma HnswPlannerIsSound(sp: Space, p: Params)
    requires ValidParams(p)
    ensures Sound(sp, p, HnswPlanner(sp, p))
  {
    var f := HnswPlanner(sp, p);
    forall g: Graph, q: nat | WellFormed(sp, g) && |g.nodes| <= q < |sp.ids|
      ensures PlanOk(sp, p, |g.nodes|, q, f(g, q))
    {
      PlanIsOk(sp, p, g, q);
    }
  }

  // ----- the build as a function -----------------------------------------

  lemma PlanGrows(sp: Space, p: Params, n: nat, q: nat, plan: seq<seq<nat>>)
    requires PlanOk(sp, p, n, q, plan)
    ensures PlanOk(sp, p, q, q, plan)
  {
    forall layer: nat | layer < |plan| ensures TargetsOk(sp, q, layer, plan[layer]) {
      TargetsGrow(sp, n, q, layer, plan[layer]);
    }
  }

  /** Points planned against `base` and inserted in order. */
  ghost function Batched(sp: Space, p: Params, f: Planner, base: Graph, count: nat): (g: Graph)
    requires WellFormed(sp, base) && Sound(sp, p, f) && |base.nodes| + count <= |sp.ids|
    ensures WellFormed(sp, g) && |g.nodes| == |base.nodes| + count
    decreases count
  {
    if count == 0 then base
    else
      var before := Batched(sp, p, f, base, count - 1);
      var q := |before.nodes|;
      PlanGrows(sp, p, |base.nodes|, q, f(base, q));
      InsertKeeps(sp, p, before, f(base, q));
      Insert(sp, p, before, f(base, q))
  }

  /** The first `count` points, each planned against the graph it joins. */
  ghost function Seeded(sp: Space, p: Params, f: Planner, count: nat): (g: Graph)
    requires ValidSpace(sp) && Sound(sp, p, f) && count <= |sp.ids|
    ensures WellFormed(sp, g) && |g.nodes| == count
    decreases count
  {
    if count == 0 then NO_GRAPH else Batched(sp, p, f, Seeded(sp, p, f, count - 1), 1)
  }

  ghost function Completed(sp: Space, p: Params, f: Planner, g: Graph): (r: Graph)
    requires WellFormed(sp, g) && Sound(sp, p, f)
    ensures WellFormed(sp, r) && |r.nodes| == |sp.ids|
    decreases |sp.ids| - |g.nodes|
  {
    if |g.nodes| == |sp.ids| then g
    else Completed(sp, p, f, Batched(sp, p, f, g, Min(PARALLEL_BUILD_BATCH, |sp.ids| - |g.nodes|)))
  }

  ghost function PrunedNode(sp: Space, p: Params, i: nat, node: Node): Node {
    node.(neighbors := seq(|node.neighbors|, layer requires 0 <= layer < |node.neighbors| =>
      Prune(sp, p, i, layer, node.neighbors[layer])))
  }

  /** `compact_neighbors`. */
  ghost function Compacted(sp: Space, p: Params, g: Graph): Graph {
    g.(nodes := seq(|g.nodes|, i requires 0 <= i < |g.nodes| => PrunedNode(sp, p, i, g.nodes[i])))
  }

  ghost function Grown(sp: Space, p: Params, f: Planner): Graph
    requires ValidSpace(sp) && Sound(sp, p, f)
  {
    Completed(sp, p, f, Seeded(sp, p, f, Min(PARALLEL_BUILD_SEED, |sp.ids|)))
  }

  ghost function Built(sp: Space, p: Params): Graph
    requires ValidSpace(sp) && ValidParams(p)
  {
    HnswPlannerIsSound(sp, p);
    Compacted(sp, p, Grown(sp, p, HnswPlanner(sp, p)))
  }

  ghost predicate Bounded(p: Params, g: Graph) {
    forall i: nat, layer: nat {:trigger Adjacent(g.nodes, i, layer)} ::
      |Adjacent(g.nodes, i, layer)| <= MaxConnections(p, layer)
  }

  lemma CompactedIsOk(sp: Space, p: Params, g: Graph)
    requires WellFormed(sp, g)
    ensures WellFormed(sp, Compacted(sp, p, g)) && Bounded(p, Compacted(sp, p, g))
  {
    var after := Compacted(sp, p, g).nodes;
    forall i: nat, layer: nat
      ensures ListOk(sp, |g.nodes|, i, layer, Adjacent(after, i, layer))
      ensures |Adjacent(after, i, layer)| <= MaxConnections(p, layer)
    {
      LinksAreOk(sp, g, layer, i);
      PruneIs(sp, p, |g.nodes|, i, layer, Adjacent(g.nodes, i, layer));
    }
    forall i: nat | i < |g.nodes| ensures NodeOk(sp, after, i) {
      assert NodeOk(sp, g.nodes, i);
    }
  }

  /**
   The finished index: every point is a node of its level; each link goes to a
   different node that lives on the link's layer; no list is longer than its
   limit; the entry point has the highest level.
   */
  lemma BuiltIsOk(sp: Space, p: Params)
    requires ValidSpace(sp) && ValidParams(p)
    ensures WellFormed(sp, Built(sp, p)) && Bounded(p, Built(sp, p)) && |Built(sp, p).nodes| == |sp.ids|
  {
    HnswPlannerIsSound(sp, p);
    CompactedIsOk(sp, p, Grown(sp, p, HnswPlanner(sp, p)));
  }

  /** While building, a list stays below twice its limit. */
  ghost predicate Loose(p: Params, g: Graph) {
    forall i: nat, layer: nat {:trigger Adjacent(g.nodes, i, layer)} ::
      |Adjacent(g.nodes, i, layer)| < 2 * MaxConnections(p, layer)
  }

  lemma InsertStaysLoose(sp: Space, p: Params, g: Graph, plan: seq<seq<nat>>)
    requires WellFormed(sp, g) && ValidParams(p) && Loose(p, g)
    requires |g.nodes| < |sp.ids| && PlanOk(sp, p, |g.nodes|, |g.nodes|, plan)
    ensures Loose(p, Insert(sp, p, g, plan))
  {
    var n, after := |g.nodes|, Insert(sp, p, g, plan).nodes;
    forall i: nat, layer: nat
      ensures |Adjacent(after, i, layer)| < 2 * MaxConnections(p, layer)
    {
      var list := Adjacent(g.nodes, i, layer);
      assert |list| < 2 * MaxConnections(p, layer);
      if i < n && layer < |plan| && i in plan[layer] && layer < |g.nodes[i].neighbors| && g.entry.Some? {
        LinksAreOk(sp, g, layer, i);
        assert n !in list;
        TargetsGrow(sp, n, n + 1, layer, list);
        PruneIs(sp, p, n + 1, i, layer, list + [n]);
      } else if i == n && layer < |plan| {
        assert |plan[layer]| <= MaxConnections(p, layer);
      }
    }
  }

  lemma {:induction false} BatchedIsLoose(sp: Space, p: Params, f: Planner, base: Graph, count: nat)
    requires WellFormed(sp, base) && Sound(sp, p, f) && |base.nodes| + count <= |sp.ids|
    requires ValidParams(p) && Loose(p, base)
    ensures Loose(p, Batched(sp, p, f, base, count))
    decreases count
  {
    if count > 0 {
      BatchedIsLoose(sp, p, f, base, count - 1);
      var before := Batched(sp, p, f, base, count - 1);
      var q := |before.nodes|;
      PlanGrows(sp, p, |base.nodes|, q, f(base, q));
      InsertStaysLoose(sp, p, before, f(base, q));
    }
  }

  lemma {:induction false} SeededIsLoose(sp: Space, p: Params, f: Planner, count: nat)
    requires ValidSpace(sp) && Sound(sp, p, f) && count <= |sp.ids| && ValidParams(p)
    ensures Loose(p, Seeded(sp, p, f, count))
    decreases count
  {
    if count > 0 {
      SeededIsLoose(sp, p, f, count - 1);
      BatchedIsLoose(sp, p, f, Seeded(sp, p, f, count - 1), 1);
    }
  }

  lemma {:induction false} CompletedIsLoose(sp: Space, p: Params, f: Planner, g: Graph)
    requires WellFormed(sp, g) && Sound(sp, p, f) && ValidParams(p) && Loose(p, g)
    ensures Loose(p, Completed(sp, p, f, g))
    decreases |sp.ids| - |g.nodes|
  {
    if |g.nodes| < |sp.ids| {
      var count := Min(PARALLEL_BUILD_BATCH, |sp.ids| - |g.nodes|);
      BatchedIsLoose(sp, p, f, g, count);
      CompletedIsLoose(sp, p, f, Batched(sp, p, f, g, count));
    }
  }

  /** From the empty graph to the one handed to compaction, however plans are made. */
  lemma GrownIsLoose(sp: Space, p: Params, f: Planner)
    requires ValidSpace(sp) && Sound(sp, p, f) && ValidParams(p)
    ensures Loose(p, Grown(sp, p, f))
  {
    var seed := Min(PARALLEL_BUILD_SEED, |sp.ids|);
    SeededIsLoose(sp, p, f, seed);
    CompletedIsLoose(sp, p, f, Seeded(sp, p, f, seed));
  }
}
