/**
 The layered graph: nodes with one adjacency list per layer, the two orders in
 which a query ranks nodes, and the selection of diverse neighbours. Points are
 numbered in insertion order, and a point becomes the node of the same number.
 */
module HnswGraphs {
  import opened Base
  import opened Orders
  import opened GraphSearch
  import opened Ranking

  datatype Node = Node(level: nat, neighbors: seq<seq<nat>>)

  datatype Graph = Graph(nodes: seq<Node>, entry: Option<nat>, maxLevel: nat)

  const NO_GRAPH := Graph([], None, 0)

  /** `m` links per layer, `ef` candidates while inserting. */
  datatype Params = Params(m: nat, ef: nat)

  predicate ValidParams(p: Params) { 2 <= p.m <= p.ef }

  function MaxConnections(p: Params, layer: nat): nat { if layer == 0 then 2 * p.m else p.m }

  /**
   The points: their IDs, drawn levels and pairwise scores. `apart(q, c, o)` says
   that `c` scores lower against `o` than against `q`.
   */
  datatype Space = Space(
    ids: seq<string>, levels: seq<nat>, score: (nat, nat) -> int, apart: (nat, nat, nat) -> bool)

  ghost predicate ValidSpace(sp: Space) {
    && |sp.levels| == |sp.ids|
    && forall i, j :: 0 <= i < j < |sp.ids| ==> sp.ids[i] != sp.ids[j]
  }

  // ----- orders ----------------------------------------------------------

  /** `HeapItem`: higher scores first, then lower indexes. */
  function HeapOrder(sp: Space, q: nat): Order {
    (a: nat, b: nat) => sp.score(q, a) > sp.score(q, b) || (sp.score(q, a) == sp.score(q, b) && a < b)
  }

  predicate ScoredBefore(sp: Space, q: nat, a: nat, b: nat) {
    && a < |sp.ids| && b < |sp.ids|
    && (sp.score(q, a) > sp.score(q, b) || (sp.score(q, a) == sp.score(q, b) && LexLess(sp.ids[a], sp.ids[b])))
  }

  /** `compare_scored`: higher scores first, then smaller IDs. */
  function SortOrder(sp: Space, q: nat): Order {
    (a: nat, b: nat) => ScoredBefore(sp, q, a, b)
  }

  lemma HeapOrderIsStrict(sp: Space, q: nat, n: nat)
    ensures Strict(HeapOrder(sp, q), n)
  {
  }

  lemma SortOrderIsStrict(sp: Space, q: nat, n: nat)
    requires ValidSpace(sp) && n <= |sp.ids|
    ensures Strict(SortOrder(sp, q), n)
  {
    var r := SortOrder(sp, q);
    forall a: nat ensures !r(a, a) {
      if a < |sp.ids| { LexTotal(sp.ids[a], sp.ids[a]); }
    }
    forall a: nat, b: nat | a < n && b < n && a != b ensures r(a, b) || r(b, a) {
      assert sp.ids[a] != sp.ids[b];
      LexTotal(sp.ids[a], sp.ids[b]);
    }
    forall a: nat, b: nat, c: nat | r(a, b) && r(b, c) ensures r(a, c) {
      if sp.score(q, a) == sp.score(q, b) == sp.score(q, c) {
        LexTransitive(sp.ids[a], sp.ids[b], sp.ids[c]);
      }
    }
  }

  // ----- well-formed graphs ----------------------------------------------

  function Adjacent(nodes: seq<Node>, i: nat, layer: nat): seq<nat> {
    if i < |nodes| && layer < |nodes[i].neighbors| then nodes[i].neighbors[layer] else []
  }

  function LayerLinks(nodes: seq<Node>, layer: nat): Links {
    (i: nat) => Adjacent(nodes, i, layer)
  }

  ghost predicate Distinct(list: seq<nat>) {
    forall a, b :: 0 <= a < b < |list| ==> list[a] != list[b]
  }

  /** Every target is one of the first `n` nodes and lives on the layer. */
  ghost predicate TargetsOk(sp: Space, n: nat, layer: nat, list: seq<nat>) {
    n <= |sp.levels| && Distinct(list) && forall t :: t in list ==> t < n && sp.levels[t] >= layer
  }

  ghost predicate ListOk(sp: Space, n: nat, i: nat, layer: nat, list: seq<nat>) {
    TargetsOk(sp, n, layer, list) && i !in list
  }

  ghost predicate NodeOk(sp: Space, nodes: seq<Node>, i: nat)
    requires i < |nodes| <= |sp.levels|
  {
    && nodes[i].level == sp.levels[i]
    && |nodes[i].neighbors| == nodes[i].level + 1
    && forall layer: nat {:trigger Adjacent(nodes, i, layer)} ::
      ListOk(sp, |nodes|, i, layer, Adjacent(nodes, i, layer))
  }

  ghost predicate EntryOk(sp: Space, g: Graph)
    requires |g.nodes| <= |sp.levels|
  {
    if g.nodes == [] then g.entry == None && g.maxLevel == 0
    else
      && g.entry.Some? && g.entry.value < |g.nodes|
      && sp.levels[g.entry.value] == g.maxLevel
      && forall i :: 0 <= i < |g.nodes| ==> sp.levels[i] <= g.maxLevel
  }

  ghost predicate WellFormed(sp: Space, g: Graph) {
    && ValidSpace(sp) && |g.nodes| <= |sp.ids|
    && EntryOk(sp, g)
    && forall i: nat {:trigger NodeOk(sp, g.nodes, i)} :: i < |g.nodes| ==> NodeOk(sp, g.nodes, i)
  }

  lemma LinksAreOk(sp: Space, g: Graph, layer: nat, i: nat)
    requires WellFormed(sp, g)
    ensures ListOk(sp, |g.nodes|, i, layer, Adjacent(g.nodes, i, layer))
  {
    if i < |g.nodes| { assert NodeOk(sp, g.nodes, i); }
  }

  lemma LayerIsClosed(sp: Space, g: Graph, layer: nat)
    requires WellFormed(sp, g)
    ensures LinksWithin(LayerLinks(g.nodes, layer), |g.nodes|)
    ensures ClosedUnder(LayerLinks(g.nodes, layer), OnLayer(sp, g, layer))
  {
    var links := LayerLinks(g.nodes, layer);
    forall i: nat, k: nat | k < |links(i)| ensures links(i)[k] < |g.nodes| {
      LinksAreOk(sp, g, layer, i);
      assert links(i)[k] in Adjacent(g.nodes, i, layer);
    }
    forall x, y | x in OnLayer(sp, g, layer) && y in links(x) ensures y in OnLayer(sp, g, layer) {
      LinksAreOk(sp, g, layer, x);
    }
  }

  ghost function OnLayer(sp: Space, g: Graph, layer: nat): set<nat>
    requires |g.nodes| <= |sp.levels|
  {
    set i: nat | i < |g.nodes| && sp.levels[i] >= layer
  }

  // ----- selection -------------------------------------------------------

  /**
   `select_neighbors` from candidate `k` on: a candidate close to one already
   selected is kept in reserve.
   */
  function Choose(
      sp: Space, q: nat, candidates: seq<nat>, limit: nat, k: nat, selected: seq<nat>, rejected: seq<nat>): seq<nat>
    requires k <= |candidates|
    decreases |candidates| - k
  {
    if k == |candidates| || |selected| >= limit then Fill(limit, selected, rejected)
    else
      var c := candidates[k];
      if Diverse(sp, q, c, selected) then Choose(sp, q, candidates, limit, k + 1, selected + [c], rejected)
      else Choose(sp, q, candidates, limit, k + 1, selected, rejected + [c])
  }

  predicate Diverse(sp: Space, q: nat, c: nat, selected: seq<nat>) {
    forall o :: o in selected ==> sp.apart(q, c, o)
  }

  /** The reserve fills what is left of the limit. */
  function Fill(limit: nat, selected: seq<nat>, rejected: seq<nat>): seq<nat> {
    if |selected| >= limit then selected
    else selected + rejected[..Min(limit - |selected|, |rejected|)]
  }

  function Select(sp: Space, q: nat, candidates: seq<nat>, limit: nat): seq<nat> {
    Choose(sp, q, candidates, limit, 0, [], [])
  }

  method SelectNeighbors(sp: Space, q: nat, candidates: seq<nat>, limit: nat) returns (r: seq<nat>)
    ensures r == Select(sp, q, candidates, limit)
    ensures Distinct(candidates) ==> exists d: nat :: TakesFirst(sp, q, candidates, limit, r, d)
  {
    if Distinct(candidates) { ghost var d := SelectTakesFirst(sp, q, candidates, limit); }
    var selected: seq<nat>, rejected: seq<nat> := [], [];
    var k := 0;
    while k < |candidates| && |selected| < limit
      invariant 0 <= k <= |candidates|
      invariant Choose(sp, q, candidates, limit, k, selected, rejected) == Select(sp, q, candidates, limit)
    {
      if Diverse(sp, q, candidates[k], selected) {
        selected := selected + [candidates[k]];
      } else {
        rejected := rejected + [candidates[k]];
      }
      k := k + 1;
    }
    r := Fill(limit, selected, rejected);
  }

  /** `selected` and `rejected` together are the first `k` candidates. */
  ghost predicate Divides(candidates: seq<nat>, limit: nat, k: nat, selected: seq<nat>, rejected: seq<nat>) {
    && k <= |candidates| && |selected| <= limit && |selected| + |rejected| == k
    && Distinct(selected + rejected)
    && forall x :: x in selected + rejected <==> x in candidates[..k]
  }

  lemma DividesNext(candidates: seq<nat>, limit: nat, k: nat, selected: seq<nat>, rejected: seq<nat>)
    requires Distinct(candidates) && k < |candidates| && |selected| < limit
    requires Divides(candidates, limit, k, selected, rejected)
    ensures Divides(candidates, limit, k + 1, selected + [candidates[k]], rejected)
    ensures Divides(candidates, limit, k + 1, selected, rejected + [candidates[k]])
  {
    var c := candidates[k];
    assert candidates[..k + 1] == candidates[..k] + [c];
    assert c !in selected + rejected;
    MiddleDistinct(selected, c, rejected);
    assert selected + (rejected + [c]) == selected + rejected + [c];
  }

  lemma MiddleDistinct(a: seq<nat>, c: nat, b: seq<nat>)
    requires Distinct(a + b) && c !in a + b
    ensures Distinct(a + [c] + b)
    ensures forall x :: x in a + [c] + b <==> x in a + b || x == c
  {
    var both, three := a + b, a + [c] + b;
    forall i | 0 <= i < |a| ensures three[i] == both[i] && both[i] in both {}
    forall i | |a| < i < |three| ensures three[i] == both[i - 1] && both[i - 1] in both {}
    forall x | x in three || x in both || x == c ensures x in three <==> x in both || x == c {
      if x == c { assert three[|a|] == c; }
      if x in both {
        var i :| 0 <= i < |both| && both[i] == x;
        assert three[if i < |a| then i else i + 1] == x;
      }
    }
  }

  /** Exactly `min(limit, candidates)` different candidates are chosen. */
  lemma {:induction false} ChooseIs(
      sp: Space, q: nat, candidates: seq<nat>, limit: nat, k: nat, selected: seq<nat>, rejected: seq<nat>)
    requires Distinct(candidates) && Divides(candidates, limit, k, selected, rejected)
    ensures var r := Choose(sp, q, candidates, limit, k, selected, rejected);
      && Distinct(r) && |r| == Min(limit, |candidates|) && selected <= r
      && forall x :: x in r ==> x in candidates
    decreases |candidates| - k
  {
    if k == |candidates| || |selected| >= limit {
      var r, all := Fill(limit, selected, rejected), selected + rejected;
      assert r == all[..|r|];
      forall x | x in r ensures x in candidates {
        assert x in all;
        assert x in candidates[..k];
      }
    } else {
      var c := candidates[k];
      DividesNext(candidates, limit, k, selected, rejected);
      if Diverse(sp, q, c, selected) {
        ChooseIs(sp, q, candidates, limit, k + 1, selected + [c], rejected);
      } else {
        ChooseIs(sp, q, candidates, limit, k + 1, selected, rejected + [c]);
      }
    }
  }

  /** The closest candidate is always chosen, and chosen first. */
  lemma SelectIs(sp: Space, q: nat, candidates: seq<nat>, limit: nat)
    requires Distinct(candidates)
    ensures var r := Select(sp, q, candidates, limit);
      && Distinct(r) && |r| == Min(limit, |candidates|)
      && (forall x :: x in r ==> x in candidates)
      && (r != [] ==> r[0] == candidates[0])
  {
    assert candidates[..0] == [];
    ChooseIs(sp, q, candidates, limit, 0, [], []);
    if limit > 0 && candidates != [] {
      DividesNext(candidates, limit, 0, [], []);
      assert [] + [candidates[0]] == [candidates[0]];
      ChooseIs(sp, q, candidates, limit, 1, [candidates[0]], []);
    }
  }

  /** Later members are apart from the earlier ones. */
  ghost predicate PairwiseApart(sp: Space, q: nat, list: seq<nat>) {
    forall i, j :: 0 <= i < j < |list| ==> sp.apart(q, list[j], list[i])
  }

  /** `x` is close to a member of `list`. */
  ghost predicate Crowded(sp: Space, q: nat, x: nat, list: seq<nat>) {
    exists o :: o in list && !sp.apart(q, x, o)
  }

  /**
   The choice starts with `d` mutually diverse candidates. Short of the limit,
   that diverse set is maximal: every other candidate is close to one of it.
   */
  lemma {:induction false} ChooseIsDiverse(
      sp: Space, q: nat, candidates: seq<nat>, limit: nat, k: nat, selected: seq<nat>, rejected: seq<nat>)
    returns (d: nat)
    requires Divides(candidates, limit, k, selected, rejected) && Distinct(candidates)
    requires PairwiseApart(sp, q, selected)
    requires forall x :: x in rejected ==> Crowded(sp, q, x, selected)
    ensures var r := Choose(sp, q, candidates, limit, k, selected, rejected);
      && d <= |r| && d <= limit && PairwiseApart(sp, q, r[..d])
      && (d < limit ==> forall x :: x in candidates ==> x in r[..d] || Crowded(sp, q, x, r[..d]))
    decreases |candidates| - k
  {
    if k == |candidates| || |selected| >= limit {
      d := |selected|;
      var r := Fill(limit, selected, rejected);
      assert r[..d] == selected;
      if d < limit {
        forall x | x in candidates ensures x in selected || Crowded(sp, q, x, selected) {
          assert candidates[..k] == candidates;
          assert x in selected + rejected;
        }
      }
    } else {
      var c := candidates[k];
      DividesNext(candidates, limit, k, selected, rejected);
      if Diverse(sp, q, c, selected) {
        forall x | x in rejected ensures Crowded(sp, q, x, selected + [c]) {
          var o :| o in selected && !sp.apart(q, x, o);
          assert o in selected + [c];
        }
        d := ChooseIsDiverse(sp, q, candidates, limit, k + 1, selected + [c], rejected);
      } else {
        d := ChooseIsDiverse(sp, q, candidates, limit, k + 1, selected, rejected + [c]);
      }
    }
  }

  lemma SelectIsDiverse(sp: Space, q: nat, candidates: seq<nat>, limit: nat) returns (d: nat)
    requires Distinct(candidates)
    ensures var r := Select(sp, q, candidates, limit);
      && d <= |r| && d <= limit && PairwiseApart(sp, q, r[..d])
      && (d < limit ==> forall x :: x in candidates ==> x in r[..d] || Crowded(sp, q, x, r[..d]))
  {
    assert candidates[..0] == [];
    d := ChooseIsDiverse(sp, q, candidates, limit, 0, [], []);
  }

  // ----- selection without the reserve -----------------------------------

  /** Candidate `a` is the first one that is diverse from all `taken`. */
  ghost predicate FirstDiverse(sp: Space, q: nat, candidates: seq<nat>, taken: seq<nat>, a: nat) {
    && a < |candidates| && candidates[a] !in taken && Diverse(sp, q, candidates[a], taken)
    && forall b :: 0 <= b < a ==> candidates[b] in taken || !Diverse(sp, q, candidates[b], taken)
  }

  /** Candidate `a` is the first one not taken. */
  ghost predicate FirstLeft(candidates: seq<nat>, taken: seq<nat>, a: nat) {
    && a < |candidates| && candidates[a] !in taken
    && forall b :: 0 <= b < a ==> candidates[b] in taken
  }

  ghost predicate TakesDiverse(sp: Space, q: nat, candidates: seq<nat>, r: seq<nat>, i: nat)
    requires i < |r|
  {
    exists a: nat :: FirstDiverse(sp, q, candidates, r[..i], a) && candidates[a] == r[i]
  }

  ghost predicate TakesLeft(candidates: seq<nat>, r: seq<nat>, i: nat)
    requires i < |r|
  {
    exists a: nat :: FirstLeft(candidates, r[..i], a) && candidates[a] == r[i]
  }

  /** Each of `rejected` is close to one selected, and they are listed in the order of the candidates. */
  ghost predicate InReserve(sp: Space, q: nat, candidates: seq<nat>, selected: seq<nat>, rejected: seq<nat>) {
    forall j :: 0 <= j < |rejected| ==>
      !Diverse(sp, q, rejected[j], selected) && ReservedAt(candidates, selected, rejected, j)
  }

  ghost predicate ReservedAt(candidates: seq<nat>, selected: seq<nat>, rejected: seq<nat>, j: nat)
    requires j < |rejected|
  {
    exists a: nat :: FirstLeft(candidates, selected + rejected[..j], a) && candidates[a] == rejected[j]
  }

  lemma ReserveStays(
      sp: Space, q: nat, candidates: seq<nat>, limit: nat, k: nat, selected: seq<nat>, rejected: seq<nat>)
    requires Distinct(candidates) && k < |candidates| && Divides(candidates, limit, k, selected, rejected)
    requires InReserve(sp, q, candidates, selected, rejected)
    ensures InReserve(sp, q, candidates, selected + [candidates[k]], rejected)
  {
    var c := candidates[k];
    var longer := selected + [c];
    forall j | 0 <= j < |rejected|
      ensures !Diverse(sp, q, rejected[j], longer) && ReservedAt(candidates, longer, rejected, j)
    {
      var o :| o in selected && !sp.apart(q, rejected[j], o);
      assert o in longer;
      assert ReservedAt(candidates, selected, rejected, j);
      var a: nat :| FirstLeft(candidates, selected + rejected[..j], a) && candidates[a] == rejected[j];
      assert rejected[j] in selected + rejected && rejected[j] in candidates[..k];
      assert FirstLeft(candidates, longer + rejected[..j], a);
    }
  }

  lemma ReserveGrows(
      sp: Space, q: nat, candidates: seq<nat>, limit: nat, k: nat, selected: seq<nat>, rejected: seq<nat>)
    requires Distinct(candidates) && k < |candidates| && Divides(candidates, limit, k, selected, rejected)
    requires InReserve(sp, q, candidates, selected, rejected) && !Diverse(sp, q, candidates[k], selected)
    ensures InReserve(sp, q, candidates, selected, rejected + [candidates[k]])
  {
    var c := candidates[k];
    var longer := rejected + [c];
    forall j | 0 <= j < |longer|
      ensures !Diverse(sp, q, longer[j], selected) && ReservedAt(candidates, selected, longer, j)
    {
      if j < |rejected| {
        assert ReservedAt(candidates, selected, rejected, j);
        assert longer[..j] == rejected[..j];
      } else {
        assert longer[..j] == rejected;
        forall b | 0 <= b < k ensures candidates[b] in selected + rejected { assert candidates[b] in candidates[..k]; }
        assert c !in candidates[..k];
        assert FirstLeft(candidates, selected + rejected, k);
      }
    }
  }

  lemma SelectNext(sp: Space, q: nat, candidates: seq<nat>, limit: nat, k: nat, selected: seq<nat>, rejected: seq<nat>)
    requires Distinct(candidates) && k < |candidates| && Divides(candidates, limit, k, selected, rejected)
    requires InReserve(sp, q, candidates, selected, rejected) && Diverse(sp, q, candidates[k], selected)
    requires forall i :: 0 <= i < |selected| ==> TakesDiverse(sp, q, candidates, selected, i)
    ensures forall i :: 0 <= i <= |selected| ==> TakesDiverse(sp, q, candidates, selected + [candidates[k]], i)
  {
    var c := candidates[k];
    var longer := selected + [c];
    forall i | 0 <= i <= |selected| ensures TakesDiverse(sp, q, candidates, longer, i) {
      if i < |selected| {
        assert TakesDiverse(sp, q, candidates, selected, i);
        assert longer[..i] == selected[..i];
      } else {
        assert longer[..i] == selected;
        forall b | 0 <= b < k ensures candidates[b] in selected || !Diverse(sp, q, candidates[b], selected) {
          assert candidates[b] in candidates[..k];
          assert candidates[b] in selected + rejected;
        }
        assert c !in candidates[..k];
        assert c !in selected by { assert c in selected ==> c in selected + rejected; }
        assert FirstDiverse(sp, q, candidates, selected, k);
      }
    }
  }

  /** `r` takes `d` diverse candidates, each time the first, and then the first ones left. */
  ghost predicate TakesFirst(sp: Space, q: nat, candidates: seq<nat>, limit: nat, r: seq<nat>, d: nat) {
    && d <= |r| == Min(limit, |candidates|)
    && (forall i :: 0 <= i < d ==> TakesDiverse(sp, q, candidates, r, i))
    && (d < |r| ==> forall x :: x in candidates ==> x in r[..d] || !Diverse(sp, q, x, r[..d]))
    && (forall i :: d <= i < |r| ==> TakesLeft(candidates, r, i))
  }

  lemma FillTakesFirst(
      sp: Space, q: nat, candidates: seq<nat>, limit: nat, k: nat, selected: seq<nat>, rejected: seq<nat>)
    requires Distinct(candidates) && Divides(candidates, limit, k, selected, rejected)
    requires k == |candidates| || |selected| >= limit
    requires InReserve(sp, q, candidates, selected, rejected)
    requires forall i :: 0 <= i < |selected| ==> TakesDiverse(sp, q, candidates, selected, i)
    ensures TakesFirst(sp, q, candidates, limit, Fill(limit, selected, rejected), |selected|)
  {
    var r, d := Fill(limit, selected, rejected), |selected|;
    forall i | 0 <= i < d ensures TakesDiverse(sp, q, candidates, r, i) {
      assert TakesDiverse(sp, q, candidates, selected, i);
      assert r[..i] == selected[..i];
    }
    if d < |r| {
      assert r[..d] == selected && candidates[..k] == candidates;
      forall x | x in candidates ensures x in selected || !Diverse(sp, q, x, selected) {
        assert x in selected + rejected;
      }
    }
    forall i | d <= i < |r| ensures TakesLeft(candidates, r, i) {
      assert r[i] == rejected[i - d] && r[..i] == selected + rejected[..i - d];
      assert ReservedAt(candidates, selected, rejected, i - d);
    }
  }

  lemma {:induction false} ChooseTakesFirst(
      sp: Space, q: nat, candidates: seq<nat>, limit: nat, k: nat, selected: seq<nat>, rejected: seq<nat>)
    returns (d: nat)
    requires Distinct(candidates) && Divides(candidates, limit, k, selected, rejected)
    requires InReserve(sp, q, candidates, selected, rejected)
    requires forall i :: 0 <= i < |selected| ==> TakesDiverse(sp, q, candidates, selected, i)
    ensures TakesFirst(sp, q, candidates, limit, Choose(sp, q, candidates, limit, k, selected, rejected), d)
    decreases |candidates| - k
  {
    if k == |candidates| || |selected| >= limit {
      d := |selected|;
      FillTakesFirst(sp, q, candidates, limit, k, selected, rejected);
    } else {
      var c := candidates[k];
      DividesNext(candidates, limit, k, selected, rejected);
      if Diverse(sp, q, c, selected) {
        SelectNext(sp, q, candidates, limit, k, selected, rejected);
        ReserveStays(sp, q, candidates, limit, k, selected, rejected);
        d := ChooseTakesFirst(sp, q, candidates, limit, k + 1, selected + [c], rejected);
      } else {
        ReserveGrows(sp, q, candidates, limit, k, selected, rejected);
        d := ChooseTakesFirst(sp, q, candidates, limit, k + 1, selected, rejected + [c]);
      }
    }
  }

  /**
   One scan with a reserve does what the repeated choice does: take the first candidate that is diverse from
   all taken so far, and once there is none, the first ones left.
   */
  lemma SelectTakesFirst(sp: Space, q: nat, candidates: seq<nat>, limit: nat) returns (d: nat)
    requires Distinct(candidates)
    ensures TakesFirst(sp, q, candidates, limit, Select(sp, q, candidates, limit), d)
  {
    assert candidates[..0] == [];
    d := ChooseTakesFirst(sp, q, candidates, limit, 0, [], []);
  }

  // ----- pruning ---------------------------------------------------------

  /** `prune` on one adjacency list of node `i`. */
  ghost function Prune(sp: Space, p: Params, i: nat, layer: nat, list: seq<nat>): seq<nat> {
    var limit := MaxConnections(p, layer);
    if |list| <= limit then list else Select(sp, i, Sorted(SortOrder(sp, i), Members(list)), limit)
  }

  lemma AscendingIsDistinct(r: Order, n: nat, list: seq<nat>)
    requires Strict(r, n) && Ascending(r, list)
    ensures Distinct(list)
  {
    forall a, b | 0 <= a < b < |list| ensures list[a] != list[b] {
      assert r(list[a], list[b]) && !r(list[a], list[a]);
    }
  }

  /** Pruning keeps a subset of the links and ends within the limit. */
  lemma PruneIs(sp: Space, p: Params, n: nat, i: nat, layer: nat, list: seq<nat>)
    requires ValidSpace(sp) && ListOk(sp, n, i, layer, list)
    ensures ListOk(sp, n, i, layer, Prune(sp, p, i, layer, list))
    ensures |Prune(sp, p, i, layer, list)| <= MaxConnections(p, layer)
    ensures forall t :: t in Prune(sp, p, i, layer, list) ==> t in list
  {
    if |list| > MaxConnections(p, layer) {
      var r, all := SortOrder(sp, i), Members(list);
      SortOrderIsStrict(sp, i, n);
      SortedIs(r, n, all);
      AscendingIsDistinct(r, n, Sorted(r, all));
      SelectIs(sp, i, Sorted(r, all), MaxConnections(p, layer));
      forall t | t in Prune(sp, p, i, layer, list) ensures t in list {
        assert t in Members(Sorted(r, all));
      }
    }
  }
}
