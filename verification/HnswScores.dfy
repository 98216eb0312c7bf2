/**
 Searching and planning in terms of scores: the descent climbs along the steepest
 links, a layer search keeps the best `ef` of what it visits, and a plan takes
 diverse nodes from them. None of the orders that the heaps use is mentioned.
 */
module HnswScores {
  import opened Orders
  import opened GraphSearch
  import opened BestFirst
  import opened Ranking
  import opened HnswGraphs
  import opened HnswInsertion

  // ----- the descent -----------------------------------------------------

  /** Node `a` has the higher score, or the same score and the smaller ID. */
  ghost predicate Leads(sp: Space, q: nat, a: nat, b: nat) {
    && a < |sp.ids| && b < |sp.ids|
    && (sp.score(q, a) > sp.score(q, b)
        || (sp.score(q, a) == sp.score(q, b) && exists n: nat :: PrecedesAt(sp.ids[a], sp.ids[b], n)))
  }

  ghost predicate LeadsAll(sp: Space, q: nat, x: nat, list: seq<nat>) {
    forall y :: y in list && y != x ==> Leads(sp, q, x, y)
  }

  lemma SortOrderLeads(sp: Space, q: nat, a: nat, b: nat)
    ensures SortOrder(sp, q)(a, b) <==> Leads(sp, q, a, b)
  {
    if a < |sp.ids| && b < |sp.ids| { LexByFirstDifference(sp.ids[a], sp.ids[b]); }
  }

  /** From `x` to the leader among `x` and its neighbours, and on from there until that is the node itself. */
  ghost predicate Climbs(sp: Space, nodes: seq<Node>, q: nat, layer: nat, path: seq<nat>) {
    && path != []
    && (forall i, j :: 0 <= i && i + 1 == j < |path| ==> ClimbsTo(sp, nodes, q, layer, path[i], path[j]))
    && LeadsAll(sp, q, path[|path| - 1], Adjacent(nodes, path[|path| - 1], layer))
  }

  ghost predicate ClimbsTo(sp: Space, nodes: seq<Node>, q: nat, layer: nat, x: nat, y: nat) {
    && y in Adjacent(nodes, x, layer) && Leads(sp, q, y, x)
    && LeadsAll(sp, q, y, Adjacent(nodes, x, layer))
  }

  lemma StepsClimb(sp: Space, nodes: seq<Node>, q: nat, layer: nat, path: seq<nat>)
    requires Steps(SortOrder(sp, q), LayerLinks(nodes, layer), path)
    ensures Climbs(sp, nodes, q, layer, path)
  {
    var r, links := SortOrder(sp, q), LayerLinks(nodes, layer);
    forall i, j | 0 <= i && i + 1 == j < |path| ensures ClimbsTo(sp, nodes, q, layer, path[i], path[j]) {
      assert StepsTo(r, links, path[i], path[j]);
      SortOrderLeads(sp, q, path[j], path[i]);
      AheadLeads(sp, q, path[j], links(path[i]));
    }
    AheadLeads(sp, q, path[|path| - 1], links(path[|path| - 1]));
  }

  lemma AheadLeads(sp: Space, q: nat, y: nat, list: seq<nat>)
    requires IsAhead(SortOrder(sp, q), y, list)
    ensures LeadsAll(sp, q, y, list)
  {
    forall z | z in list && z != y ensures Leads(sp, q, y, z) { SortOrderLeads(sp, q, y, z); }
  }

  ghost predicate ClimbsFrom(sp: Space, nodes: seq<Node>, q: nat, layer: nat, x: nat, y: nat) {
    exists path :: Climbs(sp, nodes, q, layer, path) && path[0] == x && path[|path| - 1] == y
  }

  /** The node `end` is reached from `start` by climbing on every layer from `layer` down to above `level`. */
  ghost predicate Descends(sp: Space, nodes: seq<Node>, q: nat, start: nat, layer: nat, level: nat, end: nat)
    decreases layer
  {
    if layer <= level then end == start
    else exists next: nat ::
      ClimbsFrom(sp, nodes, q, layer, start, next) && Descends(sp, nodes, q, next, layer - 1, level, end)
  }

  /** The end of the descent, for every node and layer. */
  type Descent = (nat, nat) -> nat

  ghost function DescentTo(sp: Space, g: Graph, q: nat, level: nat): Descent {
    (current: nat, layer: nat) =>
      if WellFormed(sp, g) && current in OnLayer(sp, g, layer) then Descend(sp, g, q, current, layer, level) else 0
  }

  /** From above `level` the descent goes on from a node that it climbs to. */
  ghost predicate GoesDown(sp: Space, g: Graph, q: nat, level: nat, d: Descent, current: nat, layer: nat)
    requires |g.nodes| <= |sp.levels|
  {
    current in OnLayer(sp, g, layer) ==>
      if layer <= level then d(current, layer) == current
      else exists next: nat :: ClimbsFrom(sp, g.nodes, q, layer, current, next)
                               && next in OnLayer(sp, g, layer - 1) && d(current, layer) == d(next, layer - 1)
  }

  ghost predicate GoesDownFrom(sp: Space, g: Graph, q: nat, level: nat, d: Descent)
    requires |g.nodes| <= |sp.levels|
  {
    forall current: nat, layer: nat {:trigger GoesDown(sp, g, q, level, d, current, layer)} ::
      GoesDown(sp, g, q, level, d, current, layer)
  }

  lemma DescendGoesDown(sp: Space, g: Graph, q: nat, level: nat, current: nat, layer: nat)
    requires WellFormed(sp, g)
    ensures GoesDown(sp, g, q, level, DescentTo(sp, g, q, level), current, layer)
  {
    if current in OnLayer(sp, g, layer) && layer > level {
      DescendStep(sp, g, q, current, layer);
      var path := GreedySteps(SortOrder(sp, q), LayerLinks(g.nodes, layer), |g.nodes|, current);
      StepsClimb(sp, g.nodes, q, layer, path);
      var next := path[|path| - 1];
      assert ClimbsFrom(sp, g.nodes, q, layer, current, next);
      assert next in OnLayer(sp, g, layer - 1);
    }
  }

  lemma {:induction false} DescentDescends(
      sp: Space, g: Graph, q: nat, d: Descent, current: nat, layer: nat, level: nat)
    requires |g.nodes| <= |sp.levels| && current in OnLayer(sp, g, layer) && GoesDownFrom(sp, g, q, level, d)
    ensures Descends(sp, g.nodes, q, current, layer, level, d(current, layer))
    decreases layer
  {
    assert GoesDown(sp, g, q, level, d, current, layer);
    if layer > level {
      var next: nat :| ClimbsFrom(sp, g.nodes, q, layer, current, next)
        && next in OnLayer(sp, g, layer - 1) && d(current, layer) == d(next, layer - 1);
      DescentDescends(sp, g, q, d, next, layer - 1, level);
    }
  }

  lemma DescentClimbs(sp: Space, g: Graph, q: nat, current: nat, layer: nat, level: nat)
    requires WellFormed(sp, g) && current in OnLayer(sp, g, layer)
    ensures Descends(sp, g.nodes, q, current, layer, level, Descend(sp, g, q, current, layer, level))
  {
    var d := DescentTo(sp, g, q, level);
    forall c: nat, l: nat ensures GoesDown(sp, g, q, level, d, c, l) {
      DescendGoesDown(sp, g, q, level, c, l);
    }
    DescentDescends(sp, g, q, d, current, layer, level);
  }

  // ----- one layer -------------------------------------------------------

  lemma LayerIsReady(sp: Space, g: Graph, q: nat, layer: nat)
    requires WellFormed(sp, g)
    ensures Strict(HeapOrder(sp, q), |g.nodes|) && Strict(SortOrder(sp, q), |g.nodes|)
    ensures LinksWithin(LayerLinks(g.nodes, layer), |g.nodes|)
  {
    HeapOrderIsStrict(sp, q, |g.nodes|);
    SortOrderIsStrict(sp, q, |g.nodes|);
    LayerIsClosed(sp, g, layer);
  }

  /** The nodes that a search of the layer visits. */
  ghost function VisitedOn(sp: Space, g: Graph, q: nat, layer: nat, ef: nat, entry: nat): set<nat>
    requires WellFormed(sp, g) && entry < |g.nodes|
  {
    LayerIsReady(sp, g, q, layer);
    Walked(HeapOrder(sp, q), LayerLinks(g.nodes, layer), |g.nodes|, ef, {entry}, {})
  }

  ghost function FoundOn(sp: Space, g: Graph, q: nat, layer: nat, ef: nat, entry: nat): set<nat>
    requires WellFormed(sp, g) && entry < |g.nodes| && ef > 0
  {
    LayerIsReady(sp, g, q, layer);
    Found(HeapOrder(sp, q), LayerLinks(g.nodes, layer), |g.nodes|, ef, entry)
  }

  /** `found` are the `ef` nodes of `visited` with the highest scores, lower indexes first. */
  ghost predicate KeepsBest(sp: Space, q: nat, ef: nat, visited: set<nat>, found: set<nat>) {
    && found <= visited && |found| == (if |visited| < ef then |visited| else ef)
    && forall x, y :: x in found && y in visited && y !in found ==>
         sp.score(q, x) > sp.score(q, y) || (sp.score(q, x) == sp.score(q, y) && x < y)
  }

  lemma TopIsBest(sp: Space, q: nat, ef: nat, visited: set<nat>, found: set<nat>)
    requires IsTop(HeapOrder(sp, q), found, visited, ef)
    ensures KeepsBest(sp, q, ef, visited, found)
  {
    forall x, y | x in found && y in visited && y !in found
      ensures sp.score(q, x) > sp.score(q, y) || (sp.score(q, x) == sp.score(q, y) && x < y)
    {
      assert HeapOrder(sp, q)(x, y);
    }
  }

  lemma LayerSearch(sp: Space, g: Graph, q: nat, layer: nat, ef: nat, entry: nat)
    requires WellFormed(sp, g) && entry < |g.nodes| && ef > 0
    ensures IsTop(HeapOrder(sp, q), FoundOn(sp, g, q, layer, ef, entry), VisitedOn(sp, g, q, layer, ef, entry), ef)
    ensures NeighborsIn(
      LayerLinks(g.nodes, layer), FoundOn(sp, g, q, layer, ef, entry), VisitedOn(sp, g, q, layer, ef, entry))
  {
    LayerIsReady(sp, g, q, layer);
    SearchIsBestFirst(HeapOrder(sp, q), LayerLinks(g.nodes, layer), |g.nodes|, ef, entry);
    FoundIsLocallyBest(HeapOrder(sp, q), LayerLinks(g.nodes, layer), |g.nodes|, ef, entry);
  }

  /** Every neighbour of a found node was visited. */
  ghost predicate SeesNeighbors(nodes: seq<Node>, layer: nat, found: set<nat>, visited: set<nat>) {
    forall x, y :: x in found && y in Adjacent(nodes, x, layer) ==> y in visited
  }

  lemma NeighborsAreSeen(nodes: seq<Node>, layer: nat, found: set<nat>, visited: set<nat>)
    requires NeighborsIn(LayerLinks(nodes, layer), found, visited)
    ensures SeesNeighbors(nodes, layer, found, visited)
  {
    forall x, y | x in found && y in Adjacent(nodes, x, layer) ensures y in visited {
      assert y in LayerLinks(nodes, layer)(x);
    }
  }

  /** A layer search keeps the best of what it visits, and it visits every neighbour of what it keeps. */
  lemma SearchKeepsBest(sp: Space, g: Graph, q: nat, layer: nat, ef: nat, entry: nat)
    requires WellFormed(sp, g) && entry < |g.nodes| && ef > 0
    ensures var found, visited := FoundOn(sp, g, q, layer, ef, entry), VisitedOn(sp, g, q, layer, ef, entry);
      KeepsBest(sp, q, ef, visited, found) && SeesNeighbors(g.nodes, layer, found, visited)
  {
    var found, visited := FoundOn(sp, g, q, layer, ef, entry), VisitedOn(sp, g, q, layer, ef, entry);
    LayerSearch(sp, g, q, layer, ef, entry);
    TopIsBest(sp, q, ef, visited, found);
    NeighborsAreSeen(g.nodes, layer, found, visited);
  }

  /** `list` are the members of `found`, by descending scores and then ascending IDs. */
  ghost predicate ListsByScore(sp: Space, q: nat, found: set<nat>, list: seq<nat>) {
    && Members(list) == found && |list| == |found|
    && forall i, j :: 0 <= i < j < |list| ==> Leads(sp, q, list[i], list[j])
  }

  lemma SortedListsByScore(sp: Space, q: nat, n: nat, found: set<nat>)
    requires ValidSpace(sp) && n <= |sp.ids| && Within(found, n)
    ensures ListsByScore(sp, q, found, Sorted(SortOrder(sp, q), found))
  {
    var r := SortOrder(sp, q);
    SortOrderIsStrict(sp, q, n);
    SortedIs(r, n, found);
    var list := Sorted(r, found);
    forall i, j | 0 <= i < j < |list| ensures Leads(sp, q, list[i], list[j]) {
      SortOrderLeads(sp, q, list[i], list[j]);
    }
  }

  // ----- the answer to a query -------------------------------------------

  /** `r` lists the first `k` of the best `ef` visited nodes: no visited node that it leaves out scores higher. */
  ghost predicate BestNodes(sp: Space, q: nat, k: nat, visited: set<nat>, r: seq<nat>) {
    && |r| == (if |visited| < k then |visited| else k)
    && (forall i :: 0 <= i < |r| ==> r[i] in visited)
    && (forall i, j :: 0 <= i < j < |r| ==> Leads(sp, q, r[i], r[j]))
    && (forall i, y :: 0 <= i < |r| && y in visited && y !in r ==> sp.score(q, r[i]) >= sp.score(q, y))
  }

  lemma FirstOfBest(sp: Space, q: nat, k: nat, ef: nat, visited: set<nat>, found: set<nat>, list: seq<nat>)
    requires k <= ef && KeepsBest(sp, q, ef, visited, found) && ListsByScore(sp, q, found, list)
    ensures BestNodes(sp, q, k, visited, list[..Min(k, |list|)])
  {
    var r := list[..Min(k, |list|)];
    forall i | 0 <= i < |list| ensures list[i] in found { assert list[i] in Members(list); }
    forall i, y | 0 <= i < |r| && y in visited && y !in r ensures sp.score(q, r[i]) >= sp.score(q, y) {
      if y in found {
        assert y in Members(list);
        var j :| 0 <= j < |list| && list[j] == y;
        assert j >= |r|;
        assert Leads(sp, q, list[i], list[j]);
      }
    }
  }

  // ----- planning --------------------------------------------------------

  /** `list` takes `limit` of the best `ef` visited nodes, diverse ones first. */
  ghost predicate ChosenAmong(sp: Space, q: nat, ef: nat, limit: nat, visited: set<nat>, list: seq<nat>) {
    exists candidates, d: nat ::
      && TakesFirst(sp, q, candidates, limit, list, d)
      && ListsByScore(sp, q, Members(candidates), candidates)
      && KeepsBest(sp, q, ef, visited, Members(candidates))
  }

  /** `list` was chosen on a layer searched from `entry`. */
  ghost predicate ChosenFrom(sp: Space, p: Params, g: Graph, q: nat, entry: nat, layer: nat, list: seq<nat>)
    requires WellFormed(sp, g) && entry < |g.nodes|
  {
    var limit := if layer == 0 then 2 * p.m else p.m;
    ChosenAmong(sp, q, p.ef, limit, VisitedOn(sp, g, q, layer, p.ef, entry), list)
  }

  lemma ChosenAtIsFrom(sp: Space, p: Params, g: Graph, q: nat, entry: nat, layer: nat)
    requires WellFormed(sp, g) && ValidParams(p) && entry in OnLayer(sp, g, layer)
    ensures ChosenFrom(sp, p, g, q, entry, layer, ChosenAt(sp, p, g, q, entry, layer))
  {
    LayerIsReady(sp, g, q, layer);
    SearchKeepsBest(sp, g, q, layer, p.ef, entry);
    FoundIsTop(HeapOrder(sp, q), LayerLinks(g.nodes, layer), |g.nodes|, p.ef, entry);
    var found := FoundOn(sp, g, q, layer, p.ef, entry);
    var candidates := Sorted(SortOrder(sp, q), found);
    SortedListsByScore(sp, q, |g.nodes|, found);
    SortedIs(SortOrder(sp, q), |g.nodes|, found);
    AscendingIsDistinct(SortOrder(sp, q), |g.nodes|, candidates);
    var d := SelectTakesFirst(sp, q, candidates, MaxConnections(p, layer));
    assert Members(candidates) == found;
  }

  /** Every layer from `layer` down is chosen from, starting on each at the first choice of the one above. */
  ghost predicate PlansDown(sp: Space, p: Params, g: Graph, q: nat, entry: nat, layer: nat, plan: seq<seq<nat>>)
    requires WellFormed(sp, g)
    decreases layer
  {
    && entry < |g.nodes| && layer < |plan| && plan[layer] != []
    && ChosenFrom(sp, p, g, q, entry, layer, plan[layer])
    && (layer > 0 ==> PlansDown(sp, p, g, q, plan[layer][0], layer - 1, plan))
  }

  /** `f` chooses on the layer, and first a node that the search on the next one can start from. */
  ghost predicate ChoosesOn(sp: Space, p: Params, g: Graph, q: nat, f: Chooser, current: nat, layer: nat)
    requires WellFormed(sp, g)
  {
    current in OnLayer(sp, g, layer) ==>
      && current < |g.nodes| && f(current, layer) != []
      && ChosenFrom(sp, p, g, q, current, layer, f(current, layer))
      && (layer > 0 ==> f(current, layer)[0] in OnLayer(sp, g, layer - 1))
  }

  ghost predicate ChoosesEverywhere(sp: Space, p: Params, g: Graph, q: nat, f: Chooser)
    requires WellFormed(sp, g)
  {
    forall current: nat, layer: nat {:trigger ChoosesOn(sp, p, g, q, f, current, layer)} ::
      ChoosesOn(sp, p, g, q, f, current, layer)
  }

  lemma LayerChooserChooses(sp: Space, p: Params, g: Graph, q: nat)
    requires WellFormed(sp, g) && ValidParams(p)
    ensures ChoosesEverywhere(sp, p, g, q, LayerChooser(sp, p, g, q))
  {
    var f := LayerChooser(sp, p, g, q);
    forall current: nat, layer: nat ensures ChoosesOn(sp, p, g, q, f, current, layer) {
      if current in OnLayer(sp, g, layer) {
        ChosenAtIsFrom(sp, p, g, q, current, layer);
        ChosenAreOk(sp, p, g, q, current, layer);
      }
    }
  }

  lemma {:induction false} PlanLayersPlansDown(
      sp: Space, p: Params, g: Graph, q: nat, f: Chooser, current: nat, layer: nat, plan: seq<seq<nat>>)
    requires WellFormed(sp, g) && ChoosesEverywhere(sp, p, g, q, f)
    requires current in OnLayer(sp, g, layer) && layer < |plan| && plan[..layer + 1] == PlanLayers(f, current, layer)
    ensures PlansDown(sp, p, g, q, current, layer, plan)
    decreases layer
  {
    var chosen := f(current, layer);
    assert ChoosesOn(sp, p, g, q, f, current, layer);
    assert plan[layer] == plan[..layer + 1][layer] == chosen;
    if layer > 0 {
      assert plan[..layer] == plan[..layer + 1][..layer] == PlanLayers(f, chosen[0], layer - 1);
      PlanLayersPlansDown(sp, p, g, q, f, chosen[0], layer - 1, plan);
    }
  }

  /** What a plan for `q` against a graph with nodes is. */
  ghost predicate PlansFrom(sp: Space, p: Params, g: Graph, q: nat, entry: nat, plan: seq<seq<nat>>)
    requires WellFormed(sp, g) && g.nodes != [] && q < |sp.ids|
  {
    var level := sp.levels[q];
    var top := if level < g.maxLevel then level else g.maxLevel;
    && |plan| == level + 1
    && (forall l :: top < l <= level ==> plan[l] == [])
    && Descends(sp, g.nodes, q, g.entry.value, g.maxLevel, level, entry)
    && PlansDown(sp, p, g, q, entry, top, plan)
  }

  lemma PlanMeans(sp: Space, p: Params, g: Graph, q: nat)
    requires WellFormed(sp, g) && ValidParams(p) && g.nodes != [] && q < |sp.ids|
    ensures exists entry: nat :: PlansFrom(sp, p, g, q, entry, Plan(sp, p, g, q))
  {
    var level, plan := sp.levels[q], Plan(sp, p, g, q);
    var top := Min(level, g.maxLevel);
    var current := Descend(sp, g, q, g.entry.value, g.maxLevel, level);
    DescendIs(sp, g, q, g.entry.value, g.maxLevel, level);
    DescentClimbs(sp, g, q, g.entry.value, g.maxLevel, level);
    LayerChooserIsSound(sp, p, g, q);
    var lists := PlanLayers(LayerChooser(sp, p, g, q), current, top);
    PlanLayersAreOk(sp, p, g, LayerChooser(sp, p, g, q), current, top);
    assert plan[..top + 1] == lists;
    LayerChooserChooses(sp, p, g, q);
    PlanLayersPlansDown(sp, p, g, q, LayerChooser(sp, p, g, q), current, top, plan);
    assert PlansFrom(sp, p, g, q, current, plan);
  }
}
