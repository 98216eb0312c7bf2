/**
 `HnswIndex` under construction: adjacency lists updated in place, plans filled
 in by workers with their own workspaces. Each method is tied to the functions of
 `HnswInsertion` and `HnswBuild`, which know neither workers nor workspaces.
 */
module HnswIndexes {
  import opened Base
  import opened Orders
  import opened GraphSearch
  import opened Ranking
  import opened HnswGraphs
  import opened HnswInsertion
  import opened HnswBuild
  import opened HnswScores
  import opened HnswLinks

  /** `prune` on one list. */
  method PruneList(sp: Space, p: Params, ghost n: nat, i: nat, layer: nat, list: seq<nat>) returns (r: seq<nat>)
    requires ValidSpace(sp) && ListOk(sp, n, i, layer, list)
    ensures r == Prune(sp, p, i, layer, list)
    ensures PrunedTo(sp, p, i, layer, list, r)
  {
    PruneMeans(sp, p, n, i, layer, list);
    if |list| <= MaxConnections(p, layer) {
      return list;
    }
    SortOrderIsStrict(sp, i, n);
    var sorted := Sort(SortOrder(sp, i), n, Members(list));
    r := SelectNeighbors(sp, i, sorted, MaxConnections(p, layer));
  }

  // ----- one link at a time ----------------------------------------------

  /** The part of a plan linked once the first `k` neighbours of `layer` are done. */
  ghost function Part(plan: seq<seq<nat>>, layer: nat, k: nat): seq<seq<nat>>
    requires layer < |plan| && k <= |plan[layer]|
  {
    plan[..layer] + [plan[layer][..k]]
  }

  /** Every old node carries exactly the back links of `part`. */
  ghost predicate LinkedBy(sp: Space, p: Params, before: seq<Node>, part: seq<seq<nat>>, nodes: seq<Node>) {
    && |nodes| == |before| + 1
    && forall i: nat {:trigger nodes[i]} :: i < |before| ==> nodes[i] == LinkedNode(sp, p, before, part, i)
  }

  lemma NothingLinked(sp: Space, p: Params, before: seq<Node>, node: Node)
    ensures LinkedBy(sp, p, before, [[]], before + [node])
  {
    forall i: nat | i < |before| ensures before[i] == LinkedNode(sp, p, before, [[]], i) {
      assert before[i].neighbors == LinkedNode(sp, p, before, [[]], i).neighbors;
    }
  }

  lemma NextLayer(sp: Space, p: Params, before: seq<Node>, plan: seq<seq<nat>>, layer: nat, nodes: seq<Node>)
    requires layer + 1 < |plan| && LinkedBy(sp, p, before, Part(plan, layer, |plan[layer]|), nodes)
    ensures LinkedBy(sp, p, before, Part(plan, layer + 1, 0), nodes)
  {
    var done, next := Part(plan, layer, |plan[layer]|), Part(plan, layer + 1, 0);
    assert plan[layer][..|plan[layer]|] == plan[layer] && plan[layer + 1][..0] == [];
    assert next == done + [[]];
    forall i: nat | i < |before| ensures nodes[i] == LinkedNode(sp, p, before, next, i) {
      assert LinkedNode(sp, p, before, next, i).neighbors == LinkedNode(sp, p, before, done, i).neighbors;
    }
  }

  lemma LinkOne(sp: Space, p: Params, before: seq<Node>, plan: seq<seq<nat>>, layer: nat, k: nat, nodes: seq<Node>)
    requires layer < |plan| && k < |plan[layer]| && Distinct(plan[layer])
    requires plan[layer][k] < |before| && layer < |before[plan[layer][k]].neighbors|
    requires LinkedBy(sp, p, before, Part(plan, layer, k), nodes)
    ensures var t := plan[layer][k];
      && layer < |nodes[t].neighbors| && nodes[t].neighbors[layer] == before[t].neighbors[layer]
      && var list := Linked(sp, p, t, layer, before[t].neighbors[layer], |before|);
      LinkedBy(sp, p, before, Part(plan, layer, k + 1),
               nodes[t := nodes[t].(neighbors := nodes[t].neighbors[layer := list])])
  {
    var t, part, next := plan[layer][k], Part(plan, layer, k), Part(plan, layer, k + 1);
    assert t !in plan[layer][..k];
    var list := Linked(sp, p, t, layer, before[t].neighbors[layer], |before|);
    var after := nodes[t := nodes[t].(neighbors := nodes[t].neighbors[layer := list])];
    assert plan[layer][..k + 1] == plan[layer][..k] + [t];
    forall i: nat | i < |before| ensures after[i] == LinkedNode(sp, p, before, next, i) {
      assert nodes[i] == LinkedNode(sp, p, before, part, i);
      assert after[i].neighbors == LinkedNode(sp, p, before, next, i).neighbors;
    }
  }

  lemma AllLinked(sp: Space, p: Params, before: seq<Node>, plan: seq<seq<nat>>, level: nat, nodes: seq<Node>)
    requires plan != [] && LinkedBy(sp, p, before, Part(plan, |plan| - 1, |plan[|plan| - 1]|), nodes)
    requires nodes[|before|] == Node(level, plan)
    ensures nodes == LinkedNodes(sp, p, before, plan, level)
  {
    var last := plan[|plan| - 1];
    assert last[..|last|] == last;
    assert Part(plan, |plan| - 1, |last|) == plan;
  }

  lemma Regroup(a: seq<seq<nat>>, x: seq<nat>, b: seq<seq<nat>>)
    ensures a + [x] + b == a + ([x] + b)
  {
  }

  /** `f` answers with the plan of `q` against `g`. */
  ghost predicate PlansFor(sp: Space, p: Params, f: Planner, g: Graph, q: nat) {
    WellFormed(sp, g) && ValidParams(p) && q < |sp.ids| ==> f(g, q) == Plan(sp, p, g, q)
  }

  ghost predicate Follows(sp: Space, p: Params, f: Planner) {
    forall g: Graph, q: nat {:trigger PlansFor(sp, p, f, g, q)} :: PlansFor(sp, p, f, g, q)
  }

  /** `f` answers with the choice on `layer`, searching from `current`. */
  ghost predicate ChoosesAt(sp: Space, p: Params, g: Graph, q: nat, f: Chooser, current: nat, layer: nat)
    requires WellFormed(sp, g) && ValidParams(p)
  {
    current in OnLayer(sp, g, layer) ==> f(current, layer) == ChosenAt(sp, p, g, q, current, layer)
  }

  ghost predicate Chooses(sp: Space, p: Params, g: Graph, q: nat, f: Chooser)
    requires WellFormed(sp, g) && ValidParams(p)
  {
    forall current: nat, layer: nat {:trigger ChoosesAt(sp, p, g, q, f, current, layer)} ::
      ChoosesAt(sp, p, g, q, f, current, layer)
  }

  lemma HitsAreDefined(sp: Space, g: Graph, q: nat)
    requires WellFormed(sp, g) && g.nodes != []
    ensures Strict(HeapOrder(sp, q), |g.nodes|) && Strict(SortOrder(sp, q), |g.nodes|)
    ensures LinksWithin(LayerLinks(g.nodes, 0), |g.nodes|)
    ensures Descend(sp, g, q, g.entry.value, g.maxLevel, 0) < |g.nodes|
  {
    HeapOrderIsStrict(sp, q, |g.nodes|);
    SortOrderIsStrict(sp, q, |g.nodes|);
    LayerIsClosed(sp, g, 0);
    DescendIs(sp, g, q, g.entry.value, g.maxLevel, 0);
  }

  /** What the base layer yields for query `q`, best first. */
  ghost function Hits(sp: Space, g: Graph, q: nat, ef: nat): seq<nat>
    requires WellFormed(sp, g) && g.nodes != [] && ef > 0
  {
    HitsAreDefined(sp, g, q);
    var entry := Descend(sp, g, q, g.entry.value, g.maxLevel, 0);
    Sorted(SortOrder(sp, q), Found(HeapOrder(sp, q), LayerLinks(g.nodes, 0), |g.nodes|, ef, entry))
  }

  /** The answer to a query: the descent ends in `entry`, and no node visited from there was wrongly left out. */
  ghost predicate AnswersFrom(sp: Space, g: Graph, q: nat, k: nat, ef: nat, entry: nat, r: seq<nat>)
    requires WellFormed(sp, g) && g.nodes != []
  {
    && entry < |g.nodes| && Descends(sp, g.nodes, q, g.entry.value, g.maxLevel, 0, entry)
    && BestNodes(sp, q, k, VisitedOn(sp, g, q, 0, ef, entry), r)
  }

  lemma HitsAnswer(sp: Space, g: Graph, q: nat, k: nat, ef: nat, entry: nat, list: seq<nat>)
    requires WellFormed(sp, g) && g.nodes != [] && 0 < k <= ef && entry < |g.nodes|
    requires Descends(sp, g.nodes, q, g.entry.value, g.maxLevel, 0, entry)
    requires list == Sorted(SortOrder(sp, q), FoundOn(sp, g, q, 0, ef, entry))
    ensures AnswersFrom(sp, g, q, k, ef, entry, list[..Min(k, |list|)])
  {
    LayerIsReady(sp, g, q, 0);
    FoundIsTop(HeapOrder(sp, q), LayerLinks(g.nodes, 0), |g.nodes|, ef, entry);
    SortedListsByScore(sp, q, |g.nodes|, FoundOn(sp, g, q, 0, ef, entry));
    SearchKeepsBest(sp, g, q, 0, ef, entry);
    FirstOfBest(sp, q, k, ef, VisitedOn(sp, g, q, 0, ef, entry), FoundOn(sp, g, q, 0, ef, entry), list);
  }

  // ----- the index -------------------------------------------------------

  class HnswIndex {
    const sp: Space
    const p: Params
    var nodes: seq<Node>
    var entryPoint: Option<nat>
    var maxLevel: nat
    ghost const planner: Planner

    ghost function Value(): Graph reads this { Graph(nodes, entryPoint, maxLevel) }

    ghost predicate Valid() reads this {
      ValidParams(p) && WellFormed(sp, Value()) && Sound(sp, p, planner) && Follows(sp, p, planner)
    }

    constructor (sp: Space, p: Params)
      requires ValidSpace(sp) && ValidParams(p)
      ensures Valid() && Value() == NO_GRAPH && this.sp == sp && this.p == p && planner == HnswPlanner(sp, p)
    {
      this.sp, this.p := sp, p;
      planner := HnswPlanner(sp, p);
      HnswPlannerIsSound(sp, p);
      nodes, entryPoint, maxLevel := [], None, 0;
    }

    /** The search of one layer followed by the choice among what it found. */
    method ChooseOnLayer(q: nat, current: nat, layer: nat, workspace: BuildWorkspace) returns (chosen: seq<nat>)
      requires Valid() && workspace.Valid() && current in OnLayer(sp, Value(), layer)
      modifies workspace
      ensures workspace.Valid()
      ensures chosen == ChosenAt(sp, p, Value(), q, current, layer)
    {
      ghost var g := Value();
      HeapOrderIsStrict(sp, q, |nodes|);
      SortOrderIsStrict(sp, q, |nodes|);
      LayerIsClosed(sp, g, layer);
      var candidates :=
        SearchLayer(HeapOrder(sp, q), SortOrder(sp, q), LayerLinks(nodes, layer), |nodes|, p.ef, current, workspace);
      chosen := SelectNeighbors(sp, q, candidates, MaxConnections(p, layer));
    }

    method DescendTo(q: nat, start: nat, level: nat) returns (current: nat)
      requires Valid() && start in OnLayer(sp, Value(), maxLevel)
      ensures current == Descend(sp, Value(), q, start, maxLevel, level)
      ensures Descends(sp, nodes, q, start, maxLevel, level, current)
    {
      DescentClimbs(sp, Value(), q, start, maxLevel, level);
      current := start;
      var layer: nat := maxLevel;
      while layer > level
        invariant current in OnLayer(sp, Value(), layer)
        invariant Descend(sp, Value(), q, start, maxLevel, level) == Descend(sp, Value(), q, current, layer, level)
      {
        DescendStep(sp, Value(), q, current, layer);
        current := GreedyClosest(SortOrder(sp, q), LayerLinks(nodes, layer), |nodes|, current);
        layer := layer - 1;
      }
    }

    method ChooseBy(ghost f: Chooser, q: nat, current: nat, layer: nat, workspace: BuildWorkspace)
      returns (chosen: seq<nat>)
      requires Valid() && workspace.Valid() && current in OnLayer(sp, Value(), layer)
      requires Chooses(sp, p, Value(), q, f)
      modifies workspace
      ensures workspace.Valid() && chosen == f(current, layer)
    {
      assert ChoosesAt(sp, p, Value(), q, f, current, layer);
      chosen := ChooseOnLayer(q, current, layer, workspace);
    }

    /** The layers `0 ..= top`, searched from the top down. */
    method PlanDown(ghost f: Chooser, q: nat, start: nat, top: nat, workspace: BuildWorkspace)
      returns (lists: seq<seq<nat>>)
      requires Valid() && workspace.Valid() && start in OnLayer(sp, Value(), top)
      requires SoundChooser(sp, p, Value(), f) && Chooses(sp, p, Value(), q, f)
      modifies workspace
      ensures workspace.Valid()
      ensures lists == PlanLayers(f, start, top)
    {
      lists := [];
      var current, layer: nat := start, top;
      while layer > 0
        invariant workspace.Valid() && current in OnLayer(sp, Value(), layer)
        invariant PlanLayers(f, current, layer) + lists == PlanLayers(f, start, top)
      {
        var chosen := ChooseBy(f, q, current, layer, workspace);
        Regroup(PlanLayers(f, chosen[0], layer - 1), chosen, lists);
        lists := [chosen] + lists;
        current := chosen[0];
        layer := layer - 1;
      }
      var chosen := ChooseBy(f, q, current, 0, workspace);
      lists := [chosen] + lists;
    }

    method PlanInsert(q: nat, workspace: BuildWorkspace) returns (plan: seq<seq<nat>>)
      requires Valid() && workspace.Valid() && nodes != [] && q < |sp.ids|
      modifies workspace
      ensures workspace.Valid()
      ensures plan == Plan(sp, p, Value(), q)
      ensures exists entry: nat :: PlansFrom(sp, p, Value(), q, entry, plan)
    {
      PlanMeans(sp, p, Value(), q);
      var level := sp.levels[q];
      var current := DescendTo(q, entryPoint.value, level);
      DescendIs(sp, Value(), q, entryPoint.value, maxLevel, level);
      var top := Min(level, maxLevel);
      LayerChooserIsSound(sp, p, Value(), q);
      var lists := PlanDown(LayerChooser(sp, p, Value(), q), q, current, top, workspace);
      plan := lists + Empties(level - top);
    }

    /**
     `search` with `k` hits out of `ef` candidates: greedy descent to the base
     layer, one search there, and the first `k` of what it found.
     */
    method Search(q: nat, k: nat, ef: nat, workspace: BuildWorkspace) returns (r: Result<seq<nat>>)
      requires Valid() && workspace.Valid()
      modifies workspace
      ensures workspace.Valid()
      ensures r.Err? <==> k == 0 || ef < k
      ensures r.Ok? && nodes == [] ==> r.value == []
      ensures r.Ok? && nodes != [] ==>
        var all := Hits(sp, Value(), q, ef);
        r.value == all[..Min(k, |all|)]
      ensures r.Ok? && nodes != [] ==> exists entry: nat :: AnswersFrom(sp, Value(), q, k, ef, entry, r.value)
    {
      if k == 0 || ef < k {
        return Err(InvalidQuery);
      }
      if entryPoint.None? {
        return Ok([]);
      }
      var current := DescendTo(q, entryPoint.value, 0);
      HitsAreDefined(sp, Value(), q);
      var heap, sort := HeapOrder(sp, q), SortOrder(sp, q);
      var list := SearchLayer(heap, sort, LayerLinks(nodes, 0), |nodes|, ef, current, workspace);
      r := Ok(list[..Min(k, |list|)]);
      HitsAnswer(sp, Value(), q, k, ef, current, list);
    }

    /** Linking node `t` back to the newest node, and pruning it when it has grown too long. */
    method LinkBack(t: nat, layer: nat, ghost before: seq<Node>)
      requires ValidSpace(sp) && |nodes| == |before| + 1 <= |sp.levels| && t < |before|
      requires layer < |before[t].neighbors| && layer < |nodes[t].neighbors|
      requires nodes[t].neighbors[layer] == before[t].neighbors[layer]
      requires ListOk(sp, |before|, t, layer, before[t].neighbors[layer]) && sp.levels[|before|] >= layer
      modifies this`nodes
      ensures nodes == old(nodes)[t := old(nodes)[t].(neighbors := old(nodes)[t].neighbors[layer :=
        Linked(sp, p, t, layer, before[t].neighbors[layer], |before|)])]
    {
      var q := |nodes| - 1;
      var list := nodes[t].neighbors[layer] + [q];
      assert ListOk(sp, |nodes|, t, layer, list);
      if |list| >= 2 * MaxConnections(p, layer) {
        list := PruneList(sp, p, |nodes|, t, layer, list);
      }
      nodes := nodes[t := nodes[t].(neighbors := nodes[t].neighbors[layer := list])];
    }

    /** One layer of the plan: the new node's own list, then each back link. */
    method LinkLayer(plan: seq<seq<nat>>, layer: nat, ghost g: Graph)
      requires ValidParams(p) && WellFormed(sp, g) && |g.nodes| < |sp.ids|
      requires PlanOk(sp, p, |g.nodes|, |g.nodes|, plan) && layer < |plan|
      requires LinkedBy(sp, p, g.nodes, Part(plan, layer, 0), nodes)
      requires nodes[|g.nodes|] == Node(sp.levels[|g.nodes|], plan[..layer] + Empties(|plan| - layer))
      modifies this`nodes
      ensures LinkedBy(sp, p, g.nodes, Part(plan, layer, |plan[layer]|), nodes)
      ensures nodes[|g.nodes|] == Node(sp.levels[|g.nodes|], plan[..layer + 1] + Empties(|plan| - layer - 1))
    {
      var q := |nodes| - 1;
      ghost var before := g.nodes;
      nodes := nodes[q := nodes[q].(neighbors := nodes[q].neighbors[layer := plan[layer]])];
      ghost var own := nodes[q];
      assert own.neighbors == plan[..layer + 1] + Empties(|plan| - layer - 1);
      for k := 0 to |plan[layer]|
        invariant LinkedBy(sp, p, before, Part(plan, layer, k), nodes)
        invariant nodes[q] == own
      {
        var t := plan[layer][k];
        assert TargetsOk(sp, |before|, layer, plan[layer]) && t in plan[layer];
        assert NodeOk(sp, before, t);
        LinksAreOk(sp, g, layer, t);
        LinkOne(sp, p, before, plan, layer, k, nodes);
        LinkBack(t, layer, before);
      }
    }

    method ApplyInsertion(plan: seq<seq<nat>>)
      requires Valid() && |nodes| < |sp.ids| && PlanOk(sp, p, |nodes|, |nodes|, plan)
      modifies this
      ensures Valid() && Value() == Insert(sp, p, old(Value()), plan)
      ensures Inserted(sp, p, old(Value()), plan, Value())
    {
      ghost var g := Value();
      InsertMeans(sp, p, g, plan);
      InsertKeeps(sp, p, g, plan);
      var q := |nodes|;
      var level := sp.levels[q];
      var node := Node(level, Empties(level + 1));
      NothingLinked(sp, p, nodes, node);
      nodes := nodes + [node];
      if entryPoint.None? {
        entryPoint, maxLevel := Some(q), level;
        return;
      }
      assert Part(plan, 0, 0) == [[]];
      var layer := 0;
      while true
        invariant layer < |plan|
        invariant LinkedBy(sp, p, g.nodes, Part(plan, layer, 0), nodes)
        invariant nodes[q] == Node(level, plan[..layer] + Empties(|plan| - layer))
        invariant entryPoint == g.entry && maxLevel == g.maxLevel
        decreases |plan| - layer
      {
        LinkLayer(plan, layer, g);
        if layer + 1 == |plan| {
          break;
        }
        NextLayer(sp, p, g.nodes, plan, layer, nodes);
        layer := layer + 1;
      }
      assert nodes[q].neighbors == plan;
      AllLinked(sp, p, g.nodes, plan, level, nodes);
      if level > maxLevel {
        entryPoint, maxLevel := Some(q), level;
      }
    }

    /** `insert_prepared`'s plan: empty for the first point. */
    method PlanNext(q: nat, workspace: BuildWorkspace) returns (plan: seq<seq<nat>>)
      requires Valid() && workspace.Valid() && q < |sp.ids|
      modifies workspace
      ensures workspace.Valid() && plan == planner(Value(), q)
    {
      assert PlansFor(sp, p, planner, Value(), q);
      if entryPoint.None? {
        plan := Empties(sp.levels[q] + 1);
      } else {
        plan := PlanInsert(q, workspace);
      }
    }

    method InsertPrepared(workspace: BuildWorkspace)
      requires Valid() && |nodes| < |sp.ids| && workspace.Valid()
      modifies this, workspace
      ensures Valid() && workspace.Valid()
      ensures Value() == Batched(sp, p, planner, old(Value()), 1)
    {
      assert Batched(sp, p, planner, Value(), 0) == Value();
      var plan := PlanNext(|nodes|, workspace);
      ApplyInsertion(plan);
    }

    /** One worker fills the slots `from .. to` of the batch with its own workspace. */
    method PlanChunk(plans: Plans, from: nat, to: nat, workspace: BuildWorkspace) returns (filled: Plans)
      requires Valid() && workspace.Valid()
      requires from <= to <= |plans| && |nodes| + |plans| <= |sp.ids|
      modifies workspace
      ensures workspace.Valid() && SameOutside(plans, filled, from, to)
      ensures Planned(planner, Value(), filled, from, to)
    {
      filled := plans;
      for j := from to to
        invariant workspace.Valid() && SameOutside(plans, filled, from, j)
        invariant Planned(planner, Value(), filled, from, j)
      {
        var plan := PlanNext(|nodes| + j, workspace);
        filled := filled[j := Some(plan)];
      }
    }

    /**
     The batch is cut into chunks, one for each workspace; a chunk without a
     workspace would go unplanned, and there is none.
     */
    method PlanBatch(count: nat, workspaces: seq<BuildWorkspace>) returns (plans: Plans)
      requires Valid() && 0 < count <= |sp.ids| - |nodes| && workspaces != []
      requires forall w :: w in workspaces ==> w.Valid()
      modifies workspaces
      ensures forall w :: w in workspaces ==> w.Valid()
      ensures |plans| == count && Planned(planner, Value(), plans, 0, count)
    {
      var workers := |workspaces|;
      var size := (count + workers - 1) / workers;
      ChunksCover(count, workers, size);
      plans := seq(count, i => None);
      var chunk, from := 0, 0;
      while chunk < workers && from < count
        invariant 0 <= chunk <= workers && 0 <= from <= count && |plans| == count
        invariant from == Min(chunk * size, count)
        invariant forall w :: w in workspaces ==> w.Valid()
        invariant Planned(planner, Value(), plans, 0, from)
        decreases workers - chunk
      {
        var to := Min(from + size, count);
        plans := PlanChunk(plans, from, to, workspaces[chunk]);
        NextChunk(chunk, size);
        chunk, from := chunk + 1, to;
      }
    }

    /** The next point of a batch planned against `base`. */
    method InsertPlanned(plan: seq<seq<nat>>, ghost base: Graph, ghost j: nat)
      requires Valid() && WellFormed(sp, base) && |base.nodes| + j < |sp.ids|
      requires Value() == Batched(sp, p, planner, base, j) && plan == planner(base, |base.nodes| + j)
      modifies this
      ensures Valid() && Value() == Batched(sp, p, planner, base, j + 1)
    {
      PlanGrows(sp, p, |base.nodes|, |nodes|, plan);
      ApplyInsertion(plan);
    }

    /** Planning a batch and inserting it in order. */
    method InsertBatch(count: nat, workspaces: seq<BuildWorkspace>)
      requires Valid() && 0 < count <= |sp.ids| - |nodes| && workspaces != []
      requires forall w :: w in workspaces ==> w.Valid()
      modifies this, workspaces
      ensures Valid() && forall w :: w in workspaces ==> w.Valid()
      ensures Value() == Batched(sp, p, planner, old(Value()), count)
    {
      ghost var base := Value();
      var plans := PlanBatch(count, workspaces);
      for j := 0 to count
        invariant Valid() && Value() == Batched(sp, p, planner, base, j)
        invariant forall w :: w in workspaces ==> w.Valid()
      {
        InsertPlanned(plans[j].value, base, j);
      }
    }

    method CompactNode(i: nat, ghost all: seq<Node>)
      requires ValidSpace(sp) && i < |nodes| == |all| <= |sp.levels| && NodeOk(sp, all, i) && nodes[i] == all[i]
      modifies this`nodes
      ensures nodes == old(nodes)[i := PrunedNode(sp, p, i, all[i])]
    {
      ghost var node := nodes[i];
      ghost var before := nodes;
      for layer := 0 to |nodes[i].neighbors|
        invariant |nodes| == |before| && |nodes[i].neighbors| == |node.neighbors| && nodes[i].level == node.level
        invariant forall j: nat :: j < |nodes| && j != i ==> nodes[j] == before[j]
        invariant forall l: nat :: l < layer ==> nodes[i].neighbors[l] == Prune(sp, p, i, l, node.neighbors[l])
        invariant forall l: nat :: layer <= l < |node.neighbors| ==> nodes[i].neighbors[l] == node.neighbors[l]
      {
        assert Adjacent(all, i, layer) == node.neighbors[layer];
        var list := PruneList(sp, p, |before|, i, layer, nodes[i].neighbors[layer]);
        nodes := nodes[i := nodes[i].(neighbors := nodes[i].neighbors[layer := list])];
      }
      assert nodes[i].neighbors == PrunedNode(sp, p, i, node).neighbors;
    }

    method CompactNeighbors()
      requires Valid()
      modifies this`nodes
      ensures Valid() && Value() == Compacted(sp, p, old(Value()))
      ensures AllPruned(sp, p, old(Value()), Value())
    {
      ghost var g := Value();
      CompactedMeans(sp, p, g);
      CompactedIsOk(sp, p, g);
      for i := 0 to |nodes|
        invariant |nodes| == |g.nodes|
        invariant forall j: nat :: j < i ==> nodes[j] == PrunedNode(sp, p, j, g.nodes[j])
        invariant forall j: nat :: i <= j < |nodes| ==> nodes[j] == g.nodes[j]
      {
        assert NodeOk(sp, g.nodes, i);
        CompactNode(i, g.nodes);
      }
      assert nodes == Compacted(sp, p, g).nodes;
    }

    /** The first points are inserted one by one. */
    method Seed(count: nat)
      requires Valid() && Value() == NO_GRAPH && count <= |sp.ids|
      modifies this
      ensures Valid() && Value() == Seeded(sp, p, planner, count)
    {
      var workspace := new BuildWorkspace();
      for i := 0 to count
        invariant Valid() && workspace.Valid() && Value() == Seeded(sp, p, planner, i)
      {
        InsertPrepared(workspace);
      }
    }

    method NextBatch(workspaces: seq<BuildWorkspace>)
      requires Valid() && |nodes| < |sp.ids| && workspaces != [] && forall w :: w in workspaces ==> w.Valid()
      modifies this, workspaces
      ensures Valid() && |nodes| > old(|nodes|) && forall w :: w in workspaces ==> w.Valid()
      ensures Completed(sp, p, planner, Value()) == Completed(sp, p, planner, old(Value()))
    {
      InsertBatch(Min(PARALLEL_BUILD_BATCH, |sp.ids| - |nodes|), workspaces);
    }

    /** The remaining points go in batches, planned by as many workers as there are workspaces. */
    method Complete(workspaces: seq<BuildWorkspace>)
      requires Valid() && workspaces != [] && forall w :: w in workspaces ==> w.Valid()
      modifies this, workspaces
      ensures Valid() && Value() == Completed(sp, p, planner, old(Value()))
    {
      ghost var whole := Completed(sp, p, planner, Value());
      while |nodes| < |sp.ids|
        invariant Valid() && whole == Completed(sp, p, planner, Value())
        invariant forall w :: w in workspaces ==> w.Valid()
        decreases |sp.ids| - |nodes|
      {
        NextBatch(workspaces);
      }
    }

    method Build(workspaces: seq<BuildWorkspace>)
      requires Valid() && Value() == NO_GRAPH
      requires workspaces != [] && forall w :: w in workspaces ==> w.Valid()
      modifies this, workspaces
      ensures Valid() && Value() == Compacted(sp, p, Grown(sp, p, planner))
    {
      Seed(Min(PARALLEL_BUILD_SEED, |sp.ids|));
      Complete(workspaces);
      CompactNeighbors();
    }
  }

  method NewWorkspaces(workers: nat) returns (workspaces: seq<BuildWorkspace>)
    ensures |workspaces| == workers && forall w :: w in workspaces ==> w.Valid()
    ensures forall i :: 0 <= i < |workspaces| ==> fresh(workspaces[i])
  {
    workspaces := [];
    for i := 0 to workers
      invariant |workspaces| == i
      invariant forall w :: w in workspaces ==> w.Valid()
      invariant forall j :: 0 <= j < |workspaces| ==> fresh(workspaces[j])
    {
      var w := new BuildWorkspace();
      workspaces := workspaces + [w];
    }
  }

  /** `build_prepared_points`: the same graph for every number of workers. */
  method BuildPreparedPoints(sp: Space, p: Params, workers: nat) returns (index: HnswIndex)
    requires ValidSpace(sp) && ValidParams(p) && workers > 0
    ensures index.sp == sp && index.Valid() && index.Value() == Built(sp, p)
    ensures |sp.ids| <= p.ef && |sp.ids| <= 2 * p.m ==> LinksAllMet(index.nodes)
    ensures |sp.ids| <= p.ef && |sp.ids| <= 2 * p.m && |sp.ids| <= 4096 ==>
      forall a: nat, b: nat :: a < |sp.ids| && b < |sp.ids| && a != b ==> b in Adjacent(index.nodes, a, 0)
  {
    index := new HnswIndex(sp, p);
    var workspaces := NewWorkspaces(workers);
    index.Build(workspaces);
    BuiltIsOk(sp, p);
    if |sp.ids| <= p.ef && |sp.ids| <= 2 * p.m {
      SmallBuildIsLinked(sp, p);
      if |sp.ids| <= 4096 { AllHaveMet(index.nodes); }
    }
  }

  // ----- batches ---------------------------------------------------------

  type Plans = seq<Option<seq<seq<nat>>>>

  /** The slots `from .. to` hold the plans made against `g` for their points. */
  ghost predicate Planned(f: Planner, g: Graph, plans: Plans, from: nat, to: nat) {
    forall j :: from <= j < to && j < |plans| ==> plans[j] == Some(f(g, |g.nodes| + j))
  }

  /** Slots outside `from .. to` are as before. */
  predicate SameOutside(before: Plans, after: Plans, from: nat, to: nat) {
    |after| == |before| && forall j :: 0 <= j < |before| && !(from <= j < to) ==> after[j] == before[j]
  }

  /** As many chunks of the rounded-up size as there are workers cover the batch. */
  lemma ChunksCover(count: nat, workers: nat, size: nat)
    requires workers > 0 && size == (count + workers - 1) / workers
    ensures workers * size >= count && (count > 0 ==> size > 0)
  {
    assert size * workers + (count + workers - 1) % workers == count + workers - 1;
  }

  lemma NextChunk(chunk: nat, size: nat)
    ensures (chunk + 1) * size == chunk * size + size
  {
  }
}
