/**
 Planning and applying an insertion. A plan is computed against a frozen graph
 and may be applied after other points of its batch were inserted.
 */
module HnswInsertion {
  import opened Base
  import opened Orders
  import opened GraphSearch
  import opened Ranking
  import opened HnswGraphs

  // ----- planning --------------------------------------------------------

  /** The neighbours chosen on one layer, searching from `current`. */
  ghost function ChosenAt(sp: Space, p: Params, g: Graph, q: nat, current: nat, layer: nat): seq<nat>
    requires WellFormed(sp, g) && ValidParams(p) && current in OnLayer(sp, g, layer)
  {
    var n, links := |g.nodes|, LayerLinks(g.nodes, layer);
    HeapOrderIsStrict(sp, q, n);
    LayerIsClosed(sp, g, layer);
    var found := Found(HeapOrder(sp, q), links, n, p.ef, current);
    Select(sp, q, Sorted(SortOrder(sp, q), found), MaxConnections(p, layer))
  }

  ghost predicate ChoiceOk(sp: Space, p: Params, g: Graph, layer: nat, chosen: seq<nat>)
    requires |g.nodes| <= |sp.levels|
  {
    && chosen != [] && |chosen| <= MaxConnections(p, layer)
    && TargetsOk(sp, |g.nodes|, layer, chosen)
    && chosen[0] in OnLayer(sp, g, layer)
  }

  lemma ChosenAreOk(sp: Space, p: Params, g: Graph, q: nat, current: nat, layer: nat)
    requires WellFormed(sp, g) && ValidParams(p) && current in OnLayer(sp, g, layer)
    ensures ChoiceOk(sp, p, g, layer, ChosenAt(sp, p, g, q, current, layer))
  {
    var n, links, heap, sort := |g.nodes|, LayerLinks(g.nodes, layer), HeapOrder(sp, q), SortOrder(sp, q);
    HeapOrderIsStrict(sp, q, n);
    SortOrderIsStrict(sp, q, n);
    LayerIsClosed(sp, g, layer);
    var found := Found(heap, links, n, p.ef, current);
    BeginHolds(heap, n, p.ef, current);
    ExploreStaysIn(heap, links, n, p.ef, Begin(current), OnLayer(sp, g, layer));
    ResultsAreTop(heap, links, n, p.ef, Begin(current));
    SortedIs(sort, n, found);
    AscendingIsDistinct(sort, n, Sorted(sort, found));
    SelectIs(sp, q, Sorted(sort, found), MaxConnections(p, layer));
    forall t | t in ChosenAt(sp, p, g, q, current, layer) ensures t in OnLayer(sp, g, layer) {
      assert t in Members(Sorted(sort, found));
    }
  }

  /** The choice on a layer, searching from a node. */
  type Chooser = (nat, nat) -> seq<nat>

  ghost function LayerChooser(sp: Space, p: Params, g: Graph, q: nat): Chooser {
    (current: nat, layer: nat) =>
      if WellFormed(sp, g) && ValidParams(p) && current in OnLayer(sp, g, layer)
      then ChosenAt(sp, p, g, q, current, layer)
      else []
  }

  ghost predicate SoundChooser(sp: Space, p: Params, g: Graph, f: Chooser)
    requires |g.nodes| <= |sp.levels|
  {
    forall current: nat, layer: nat {:trigger f(current, layer)} ::
      current in OnLayer(sp, g, layer) ==> ChoiceOk(sp, p, g, layer, f(current, layer))
  }

  lemma LayerChooserIsSound(sp: Space, p: Params, g: Graph, q: nat)
    requires WellFormed(sp, g) && ValidParams(p)
    ensures SoundChooser(sp, p, g, LayerChooser(sp, p, g, q))
  {
    var f := LayerChooser(sp, p, g, q);
    forall current: nat, layer: nat | current in OnLayer(sp, g, layer)
      ensures ChoiceOk(sp, p, g, layer, f(current, layer))
    {
      ChosenAreOk(sp, p, g, q, current, layer);
    }
  }

  /** The lists for layers `0 ..= layer`, planned from the top down. */
  ghost function PlanLayers(f: Chooser, current: nat, layer: nat): seq<seq<nat>>
    decreases layer
  {
    var chosen := f(current, layer);
    if layer == 0 then [chosen]
    else PlanLayers(f, if chosen == [] then current else chosen[0], layer - 1) + [chosen]
  }

  /** Greedy descent from `layer` down to the layer above `level`. */
  ghost function Descend(sp: Space, g: Graph, q: nat, current: nat, layer: nat, level: nat): nat
    requires WellFormed(sp, g) && current in OnLayer(sp, g, layer)
    decreases layer
  {
    if layer <= level then current
    else
      DescendStep(sp, g, q, current, layer);
      var links := LayerLinks(g.nodes, layer);
      Descend(sp, g, q, Greedy(SortOrder(sp, q), links, |g.nodes|, current), layer - 1, level)
  }

  lemma DescendStep(sp: Space, g: Graph, q: nat, current: nat, layer: nat)
    requires WellFormed(sp, g) && current in OnLayer(sp, g, layer)
    ensures Strict(SortOrder(sp, q), |g.nodes|) && LinksWithin(LayerLinks(g.nodes, layer), |g.nodes|)
    ensures Greedy(SortOrder(sp, q), LayerLinks(g.nodes, layer), |g.nodes|, current) in OnLayer(sp, g, layer)
  {
    SortOrderIsStrict(sp, q, |g.nodes|);
    LayerIsClosed(sp, g, layer);
    GreedyIsLocalBest(SortOrder(sp, q), LayerLinks(g.nodes, layer), |g.nodes|, current, OnLayer(sp, g, layer));
  }

  lemma {:induction false} DescendIs(sp: Space, g: Graph, q: nat, current: nat, layer: nat, level: nat)
    requires WellFormed(sp, g) && current in OnLayer(sp, g, layer)
    ensures Descend(sp, g, q, current, layer, level) in OnLayer(sp, g, Min(layer, level))
    decreases layer
  {
    if layer > level {
      DescendStep(sp, g, q, current, layer);
      DescendIs(sp, g, q, Greedy(SortOrder(sp, q), LayerLinks(g.nodes, layer), |g.nodes|, current), layer - 1, level);
    }
  }

  function Empties(k: nat): seq<seq<nat>> { seq(k, i => []) }

  /** `plan_insert`, or the empty plan of the first node. */
  ghost function Plan(sp: Space, p: Params, g: Graph, q: nat): seq<seq<nat>>
    requires WellFormed(sp, g) && ValidParams(p) && q < |sp.ids|
  {
    var level := sp.levels[q];
    if g.entry.None? then Empties(level + 1)
    else
      var current := Descend(sp, g, q, g.entry.value, g.maxLevel, level);
      var top := Min(level, g.maxLevel);
      PlanLayers(LayerChooser(sp, p, g, q), current, top) + Empties(level - top)
  }

  /** A plan for point `q` against a graph of `n` nodes. */
  ghost predicate PlanOk(sp: Space, p: Params, n: nat, q: nat, plan: seq<seq<nat>>) {
    && n <= q < |sp.levels| && |plan| == sp.levels[q] + 1
    && forall layer: nat {:trigger plan[layer]} :: layer < |plan| ==>
      TargetsOk(sp, n, layer, plan[layer]) && |plan[layer]| <= MaxConnections(p, layer)
  }

  lemma {:induction false} PlanLayersAreOk(sp: Space, p: Params, g: Graph, f: Chooser, current: nat, layer: nat)
    requires WellFormed(sp, g) && SoundChooser(sp, p, g, f) && current in OnLayer(sp, g, layer)
    ensures var plan := PlanLayers(f, current, layer);
      && |plan| == layer + 1
      && forall l: nat {:trigger plan[l]} :: l <= layer ==>
        TargetsOk(sp, |g.nodes|, l, plan[l]) && |plan[l]| <= MaxConnections(p, l)
    decreases layer
  {
    if layer > 0 {
      PlanLayersAreOk(sp, p, g, f, f(current, layer)[0], layer - 1);
    }
  }

  lemma PlanIsOk(sp: Space, p: Params, g: Graph, q: nat)
    requires WellFormed(sp, g) && ValidParams(p) && |g.nodes| <= q < |sp.ids|
    ensures PlanOk(sp, p, |g.nodes|, q, Plan(sp, p, g, q))
  {
    if g.entry.Some? {
      var level := sp.levels[q];
      var current := Descend(sp, g, q, g.entry.value, g.maxLevel, level);
      DescendIs(sp, g, q, g.entry.value, g.maxLevel, level);
      LayerChooserIsSound(sp, p, g, q);
      PlanLayersAreOk(sp, p, g, LayerChooser(sp, p, g, q), current, Min(level, g.maxLevel));
    }
  }

  // ----- applying --------------------------------------------------------

  /** A list of node `i` after `q` was appended to it. */
  ghost function Linked(sp: Space, p: Params, i: nat, layer: nat, list: seq<nat>, q: nat): seq<nat> {
    var longer := list + [q];
    if |longer| >= 2 * MaxConnections(p, layer) then Prune(sp, p, i, layer, longer) else longer
  }

  /**
   The nodes once point `|nodes|` is in: its own lists are the plan, each planned
   neighbour links back, everything else stays.
   */
  ghost function LinkedNode(sp: Space, p: Params, nodes: seq<Node>, plan: seq<seq<nat>>, i: nat): Node
    requires i < |nodes|
  {
    var node := nodes[i];
    node.(neighbors := seq(|node.neighbors|, layer requires 0 <= layer < |node.neighbors| =>
      if layer < |plan| && i in plan[layer] then Linked(sp, p, i, layer, node.neighbors[layer], |nodes|)
      else node.neighbors[layer]))
  }

  ghost function LinkedNodes(sp: Space, p: Params, nodes: seq<Node>, plan: seq<seq<nat>>, level: nat): seq<Node> {
    seq(|nodes|, i requires 0 <= i < |nodes| => LinkedNode(sp, p, nodes, plan, i)) + [Node(level, plan)]
  }

  /** `apply_insertion`. */
  ghost function Insert(sp: Space, p: Params, g: Graph, plan: seq<seq<nat>>): Graph
    requires |g.nodes| < |sp.levels|
  {
    var q := |g.nodes|;
    var level := sp.levels[q];
    if g.entry.None? then Graph(g.nodes + [Node(level, Empties(level + 1))], Some(q), level)
    else
      var nodes := LinkedNodes(sp, p, g.nodes, plan, level);
      if level > g.maxLevel then Graph(nodes, Some(q), level) else Graph(nodes, g.entry, g.maxLevel)
  }

  lemma TargetsGrow(sp: Space, n: nat, m: nat, layer: nat, list: seq<nat>)
    requires TargetsOk(sp, n, layer, list) && n <= m <= |sp.levels|
    ensures TargetsOk(sp, m, layer, list)
  {
  }

  lemma LinkedIsOk(sp: Space, p: Params, n: nat, i: nat, layer: nat, list: seq<nat>)
    requires ValidSpace(sp) && ListOk(sp, n, i, layer, list) && i < n < |sp.levels| && sp.levels[n] >= layer
    ensures ListOk(sp, n + 1, i, layer, Linked(sp, p, i, layer, list, n))
  {
    var longer := list + [n];
    assert n !in list;
    assert ListOk(sp, n + 1, i, layer, longer);
    PruneIs(sp, p, n + 1, i, layer, longer);
  }

  lemma LinkedNodeIsOk(sp: Space, p: Params, g: Graph, plan: seq<seq<nat>>, i: nat)
    requires WellFormed(sp, g) && i < |g.nodes| < |sp.ids| && PlanOk(sp, p, |g.nodes|, |g.nodes|, plan)
    ensures NodeOk(sp, LinkedNodes(sp, p, g.nodes, plan, sp.levels[|g.nodes|]), i)
  {
    var n := |g.nodes|;
    var nodes := LinkedNodes(sp, p, g.nodes, plan, sp.levels[n]);
    assert NodeOk(sp, g.nodes, i);
    forall layer: nat ensures ListOk(sp, n + 1, i, layer, Adjacent(nodes, i, layer)) {
      var list := Adjacent(g.nodes, i, layer);
      assert ListOk(sp, n, i, layer, list);
      TargetsGrow(sp, n, n + 1, layer, list);
      if layer < |plan| && i in plan[layer] && layer < |g.nodes[i].neighbors| {
        LinkedIsOk(sp, p, n, i, layer, list);
      }
    }
  }

  lemma NewNodeIsOk(sp: Space, p: Params, g: Graph, plan: seq<seq<nat>>, nodes: seq<Node>)
    requires WellFormed(sp, g) && |g.nodes| < |sp.ids| && PlanOk(sp, p, |g.nodes|, |g.nodes|, plan)
    requires |nodes| == |g.nodes| + 1 && nodes[|g.nodes|] == Node(sp.levels[|g.nodes|], plan)
    ensures NodeOk(sp, nodes, |g.nodes|)
  {
    var n := |g.nodes|;
    forall layer: nat ensures ListOk(sp, n + 1, n, layer, Adjacent(nodes, n, layer)) {
      if layer < |plan| {
        assert TargetsOk(sp, n, layer, plan[layer]);
      }
    }
  }

  /** A plan made for at most the present nodes keeps the graph well-formed. */
  lemma InsertKeeps(sp: Space, p: Params, g: Graph, plan: seq<seq<nat>>)
    requires WellFormed(sp, g) && |g.nodes| < |sp.ids| && PlanOk(sp, p, |g.nodes|, |g.nodes|, plan)
    ensures WellFormed(sp, Insert(sp, p, g, plan)) && |Insert(sp, p, g, plan).nodes| == |g.nodes| + 1
  {
    var n := |g.nodes|;
    var after := Insert(sp, p, g, plan);
    if g.entry.None? {
      var none := Empties(sp.levels[n] + 1);
      assert after.nodes[n] == Node(sp.levels[n], none);
      NewNodeIsOk(sp, p, g, none, after.nodes);
    } else {
      NewNodeIsOk(sp, p, g, plan, after.nodes);
      forall i: nat | i < n ensures NodeOk(sp, after.nodes, i) {
        LinkedNodeIsOk(sp, p, g, plan, i);
      }
    }
  }
}
