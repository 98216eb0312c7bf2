/**
 What the graphs of a persistent collection find. A graph with at most four times
 as many nodes as hits are wanted is asked for all of them, and then finds exactly
 the nodes that its base layer connects; if it connects all, nothing is missed and
 the unfiltered search is exact.
 */
module GraphAnswers {
  import opened Base
  import opened Collections
  import opened Durability
  import opened CrashSafety
  import opened Ranking
  import opened CollectionStore
  import opened PersistentCollections
  import Orders
  import opened GraphSearch
  import opened HnswGraphs
  import opened HnswInsertion
  import opened HnswBuild
  import opened HnswLinks
  import opened HnswIndexes

  /** A graph over the points of `sp`, asked with query `q`. */
  datatype Asked = Asked(sp: Space, g: Graph, q: nat)

  ghost predicate ValidAsked(a: Asked) {
    WellFormed(a.sp, a.g) && a.g.nodes != [] && |a.g.nodes| == |a.sp.ids|
  }

  /** How many hits a quantized graph is asked for: four times `k`, so that they can be ranked again. */
  function GraphK(a: Asked, k: nat): nat { Min(4 * k, |a.g.nodes|) }

  function GraphEf(a: Asked, k: nat, ef: nat): nat { if ef < GraphK(a, k) then GraphK(a, k) else ef }

  /** The IDs that a search for `k` hits takes from the graph: the result of `HnswIndex.Search`. */
  ghost function FoundIds(a: Asked, k: nat, ef: nat): set<Id>
    requires ValidAsked(a) && k > 0
  {
    var all := Hits(a.sp, a.g, a.q, GraphEf(a, k, ef));
    set j | 0 <= j < Min(GraphK(a, k), |all|) && all[j] < |a.sp.ids| :: a.sp.ids[all[j]]
  }

  /** The node in which the descent to the base layer ends. */
  ghost function BaseEntry(a: Asked): nat
    requires ValidAsked(a)
  {
    Descend(a.sp, a.g, a.q, a.g.entry.value, a.g.maxLevel, 0)
  }

  ghost function Connected(a: Asked): set<nat>
    requires ValidAsked(a)
  {
    Reachable(LayerLinks(a.g.nodes, 0), |a.g.nodes|, BaseEntry(a))
  }

  /** A small graph yields every node that the base layer connects, and no other. */
  lemma SmallGraphFindsConnected(a: Asked, k: nat, ef: nat)
    requires ValidAsked(a) && 0 < k && |a.g.nodes| <= 4 * k
    ensures FoundIds(a, k, ef) == set x | x in Connected(a) && x < |a.sp.ids| :: a.sp.ids[x]
  {
    var n, wide := |a.g.nodes|, GraphEf(a, k, ef);
    var heap, sort, links := HeapOrder(a.sp, a.q), SortOrder(a.sp, a.q), LayerLinks(a.g.nodes, 0);
    HitsAreDefined(a.sp, a.g, a.q);
    Orders.WithinSize(Connected(a), n);
    WideSearchIsComplete(heap, links, n, wide, BaseEntry(a));
    Orders.SortedIs(sort, n, Connected(a));
    var all := Hits(a.sp, a.g, a.q, wide);
    assert Orders.Members(all) == Connected(a) && |all| <= n;
    forall x | x in Connected(a) ensures exists j :: 0 <= j < |all| && all[j] == x {
      assert x in Orders.Members(all);
    }
    forall j | 0 <= j < |all| ensures all[j] in Connected(a) {
      assert all[j] in Orders.Members(all);
    }
  }

  /** Graph `i` of the collection is the graph asked. */
  ghost predicate IsGraphOf(a: Asked, mem: Memory, i: nat) {
    && ValidAsked(a) && i < |mem.indexes|
    && forall id :: id in mem.indexes[i].points <==> id in a.sp.ids
  }

  /** A small graph misses nothing if every point that the search would accept is connected. */
  lemma SmallGraphMissesNothing(a: Asked, mem: Memory, i: nat, score: Vector -> int, k: nat, ef: nat)
    requires IsGraphOf(a, mem, i) && 0 < k && |a.g.nodes| <= 4 * k
    requires forall x: nat :: x < |a.sp.ids| && AcceptsHit(mem, i, a.sp.ids[x]) ==> x in Connected(a)
    ensures NothingMissed(mem, i, FoundIds(a, k, ef), score, k)
  {
    SmallGraphFindsConnected(a, k, ef);
    forall id | AcceptsHit(mem, i, id) ensures id in FoundIds(a, k, ef) {
      assert id in a.sp.ids;
      var x: nat :| x < |a.sp.ids| && a.sp.ids[x] == id;
    }
  }

  /**
   An unfiltered search over small graphs that connect every point it would accept is exact:
   the graphs and the dirty points together give the best `k`.
   */
  lemma SmallGraphsAreExact(
      asked: seq<Asked>, mem: Memory, found: seq<set<Id>>, score: Vector -> int, k: nat, ef: nat, r: seq<Hit>)
    requires |asked| == |found| == |mem.indexes| && 0 < k && Answers(mem, found, score, k, r)
    requires forall i: nat {:trigger asked[i]} :: i < |asked| ==>
      && IsGraphOf(asked[i], mem, i) && |asked[i].g.nodes| <= 4 * k
      && (forall x: nat :: x < |asked[i].sp.ids| && AcceptsHit(mem, i, asked[i].sp.ids[x]) ==> x in Connected(asked[i]))
      && found[i] == FoundIds(asked[i], k, ef)
    ensures IsTopK(r, AllHits(mem.coll.points, None, score), k)
  {
    forall i | 0 <= i < |found| ensures NothingMissed(mem, i, found[i], score, k) {
      SmallGraphMissesNothing(asked[i], mem, i, score, k, ef);
    }
  }

  /** A graph built over at most `min(ef, 2m)` points connects all of them. */
  lemma SmallBuildConnects(a: Asked, p: Params)
    requires ValidAsked(a) && ValidParams(p) && a.g == Built(a.sp, p)
    requires |a.sp.ids| <= p.ef && |a.sp.ids| <= 2 * p.m
    ensures forall x: nat :: x < |a.sp.ids| ==> x in Connected(a)
  {
    SmallBuildIsLinked(a.sp, p);
    DescendIs(a.sp, a.g, a.q, a.g.entry.value, a.g.maxLevel, 0);
    AllReach(a.sp, a.g, BaseEntry(a));
  }

  /** So over such graphs the unfiltered search is exact, whatever their vectors are quantized to. */
  lemma SmallBuildsAreExact(
      asked: seq<Asked>, mem: Memory, found: seq<set<Id>>, score: Vector -> int, k: nat, ef: nat, r: seq<Hit>,
      p: Params)
    requires |asked| == |found| == |mem.indexes| && 0 < k && Answers(mem, found, score, k, r) && ValidParams(p)
    requires forall i: nat {:trigger asked[i]} :: i < |asked| ==>
      && IsGraphOf(asked[i], mem, i) && |asked[i].g.nodes| <= 4 * k && asked[i].g == Built(asked[i].sp, p)
      && |asked[i].sp.ids| <= p.ef && |asked[i].sp.ids| <= 2 * p.m
      && found[i] == FoundIds(asked[i], k, ef)
    ensures IsTopK(r, AllHits(mem.coll.points, None, score), k)
  {
    forall i: nat | i < |asked|
      ensures forall x: nat :: x < |asked[i].sp.ids| && AcceptsHit(mem, i, asked[i].sp.ids[x]) ==>
        x in Connected(asked[i])
    {
      SmallBuildConnects(asked[i], p);
    }
    SmallGraphsAreExact(asked, mem, found, score, k, ef, r);
  }
}
