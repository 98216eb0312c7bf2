/** Every graph the index builds can be written, and is read back unless the reader's own limits refuse it. */
module GraphFiles {
  import opened Base
  import opened Bytes
  import opened Orders
  import opened HnswGraphs
  import opened HnswBuild
  import opened WalCodec
  import opened GraphCodec
  import opened Collections
  import opened Quantization
  import CompactGraphs

  /** The file of graph `g` over the points of `sp`. */
  function FileOf(sp: Space, p: Params, g: Graph, kind: Header, vectors: seq<StoredVector>): GraphFile
    requires |g.nodes| <= |sp.ids| && |g.nodes| <= |vectors|
  {
    GraphFile(
      kind.(params := p, count := |g.nodes|, entry := g.entry, maxLevel := g.maxLevel),
      seq(|g.nodes|, i requires 0 <= i < |g.nodes| => NodeRecord(sp.ids[i], vectors[i], g.nodes[i].neighbors)))
  }

  /** Points as `build` accepts them: non-empty IDs and drawn levels, vectors of one dimension. */
  ghost predicate PointsWritable(pf: Platform, sp: Space, kind: Header, vectors: seq<StoredVector>) {
    && ValidSpace(sp) && |vectors| == |sp.ids| && 0 < kind.dimension < U64_LIMIT
    && forall i: nat {:trigger sp.ids[i]} :: i < |sp.ids| ==>
      && sp.ids[i] != "" && TextWritable(pf, sp.ids[i])
      && sp.levels[i] <= MAX_LEVEL && StoredVectorWritable(kind, vectors[i])
  }

  lemma NodeIsWritable(pf: Platform, sp: Space, p: Params, g: Graph, kind: Header, vectors: seq<StoredVector>, i: nat)
    requires PointsWritable(pf, sp, kind, vectors) && WellFormed(sp, g) && Bounded(p, g) && i < |g.nodes| < U32_LIMIT
    requires ValidParams(p) && p.ef < U32_LIMIT
    ensures NodeWritable(pf, FileOf(sp, p, g, kind, vectors).header, FileOf(sp, p, g, kind, vectors).nodes[i])
    ensures LinksInRange(g.nodes[i].neighbors, i, |g.nodes|)
  {
    assert NodeOk(sp, g.nodes, i) && sp.ids[i] != "";
    var layers := g.nodes[i].neighbors;
    forall l: nat | l < |layers|
      ensures |layers[l]| <= MaxConnections(p, l)
      ensures LinksFit(layers[l])
      ensures forall k :: 0 <= k < |layers[l]| ==> layers[l][k] < |g.nodes| && layers[l][k] != i
    {
      assert Adjacent(g.nodes, i, l) == layers[l];
      LinksAreOk(sp, g, l, i);
      DistinctIsShort(layers[l], |g.nodes|);
      forall k | 0 <= k < |layers[l]| ensures layers[l][k] < |g.nodes| && layers[l][k] != i {
        assert layers[l][k] in layers[l];
      }
    }
  }

  lemma {:induction false} DistinctSize(list: seq<nat>)
    requires Distinct(list)
    ensures |Members(list)| == |list|
    decreases |list|
  {
    if list == [] {
      assert Members(list) == {};
    } else {
      var init, last := list[..|list| - 1], list[|list| - 1];
      DistinctSize(init);
      assert list == init + [last] && last !in init;
      assert Members(list) == Members(init) + {last};
    }
  }

  lemma DistinctIsShort(list: seq<nat>, n: nat)
    requires Distinct(list) && forall t :: t in list ==> t < n
    ensures |list| <= n
  {
    DistinctSize(list);
    WithinSize(Members(list), n);
  }

  /** `finalize_compact_graph` accepted the graph. */
  predicate Finalized(g: Graph) {
    CompactGraphs.RangeCount(g.nodes, |g.nodes|) < U32_LIMIT && CompactGraphs.LinkCount(g.nodes, |g.nodes|) < U32_LIMIT
  }

  lemma {:induction false} NodesHaveRanges(sp: Space, g: Graph, n: nat)
    requires WellFormed(sp, g) && n <= |g.nodes|
    ensures CompactGraphs.RangeCount(g.nodes, n) >= n
  {
    if n > 0 {
      NodesHaveRanges(sp, g, n - 1);
      assert NodeOk(sp, g.nodes, n - 1);
    }
  }

  lemma GraphIsWritable(pf: Platform, sp: Space, p: Params, g: Graph, kind: Header, vectors: seq<StoredVector>)
    requires PointsWritable(pf, sp, kind, vectors) && WellFormed(sp, g) && Bounded(p, g) && Finalized(g)
    requires ValidParams(p) && p.ef < U32_LIMIT
    ensures GraphWritable(pf, FileOf(sp, p, g, kind, vectors))
  {
    var file := FileOf(sp, p, g, kind, vectors);
    NodesHaveRanges(sp, g, |g.nodes|);
    forall i: nat | i < |g.nodes|
      ensures NodeWritable(pf, file.header, file.nodes[i]) && LinksInRange(file.nodes[i].layers, i, |file.nodes|)
      ensures AdjacencyOf(file.nodes)[i] == g.nodes[i]
    {
      NodeIsWritable(pf, sp, p, g, kind, vectors, i);
      assert NodeOk(sp, g.nodes, i);
    }
    assert AdjacencyOf(file.nodes) == g.nodes;
    if g.nodes != [] {
      assert NodeOk(sp, g.nodes, g.entry.value);
      assert sp.ids[g.entry.value] != "";
    }
  }

  /** Every graph that is built and flattened can be written. */
  lemma BuiltGraphIsWritable(pf: Platform, sp: Space, p: Params, kind: Header, vectors: seq<StoredVector>)
    requires PointsWritable(pf, sp, kind, vectors) && ValidParams(p) && p.ef < U32_LIMIT && Finalized(Built(sp, p))
    ensures |Built(sp, p).nodes| == |sp.ids| && GraphWritable(pf, FileOf(sp, p, Built(sp, p), kind, vectors))
  {
    BuiltIsOk(sp, p);
    GraphIsWritable(pf, sp, p, Built(sp, p), kind, vectors);
  }

  /** The built graph survives encoding and decoding if and only if the reader's limits admit it. */
  lemma BuiltGraphRoundTripsIff(pf: Platform, sp: Space, p: Params, kind: Header, vectors: seq<StoredVector>)
    requires PointsWritable(pf, sp, kind, vectors) && ValidParams(p) && p.ef < U32_LIMIT && Finalized(Built(sp, p))
    ensures |Built(sp, p).nodes| == |sp.ids|
    ensures var file := FileOf(sp, p, Built(sp, p), kind, vectors);
      var found := DecodeGraph(pf, EncodeGraph(pf, file));
      if |vectors| <= 100_000_000 && forall i :: 0 <= i < |vectors| ==> StoredVectorWithin(vectors[i])
      then found == Ok(file)
      else found.Err?
  {
    BuiltGraphIsWritable(pf, sp, p, kind, vectors);
    var g := Built(sp, p);
    GraphRoundTripIff(pf, FileOf(sp, p, g, kind, vectors));
    FileWithinIff(sp, p, g, kind, vectors);
  }

  lemma FileWithinIff(sp: Space, p: Params, g: Graph, kind: Header, vectors: seq<StoredVector>)
    requires |g.nodes| == |sp.ids| == |vectors|
    ensures GraphWithin(FileOf(sp, p, g, kind, vectors)) <==>
      |vectors| <= 100_000_000 && forall i :: 0 <= i < |vectors| ==> StoredVectorWithin(vectors[i])
  {
    var file := FileOf(sp, p, g, kind, vectors);
    forall i | 0 <= i < |vectors| ensures NodeWithin(file.nodes[i]) <==> StoredVectorWithin(vectors[i]) {
      assert file.nodes[i].vector == vectors[i];
    }
  }

  /** Quantized vectors, one for each of `raw`. */
  ghost predicate AllQuantized(raw: seq<Vector>, vectors: seq<StoredVector>) {
    |vectors| == |raw| && forall i {:trigger vectors[i]} :: 0 <= i < |raw| ==> IsQuantized(raw[i], vectors[i])
  }

  /**
   The graph of a segment: built over the quantized forms of the points' vectors, it can be read back
   if and only if there are at most 100,000,000 points and each vector is zero or not tiny.
   */
  lemma QuantizedGraphRoundTripsIff(
      pf: Platform, sp: Space, p: Params, kind: Header, raw: seq<Vector>, vectors: seq<StoredVector>)
    requires PointsWritable(pf, sp, kind, vectors) && ValidParams(p) && p.ef < U32_LIMIT && Finalized(Built(sp, p))
    requires kind.storage.ScalarInt8? && AllQuantized(raw, vectors)
    requires forall i :: 0 <= i < |raw| ==> |raw[i]| == kind.dimension
    ensures |Built(sp, p).nodes| == |sp.ids|
    ensures var file := FileOf(sp, p, Built(sp, p), kind, vectors);
      var found := DecodeGraph(pf, EncodeGraph(pf, file));
      if |raw| <= 100_000_000 && forall i :: 0 <= i < |raw| ==> Quantizable(raw[i])
      then found == Ok(file)
      else found.Err?
  {
    forall i | 0 <= i < |raw| ensures StoredVectorWithin(vectors[i]) <==> Quantizable(raw[i]) {
      QuantizedReadsIff(kind, raw[i], vectors[i]);
    }
    BuiltGraphRoundTripsIff(pf, sp, p, kind, vectors);
  }
}
