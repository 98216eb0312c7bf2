/**
 The binary form of a finished graph. The writer checks that numbers fit their
 fields; the reader also limits the number of nodes and insists on finite vectors
 and positive scales.
 */
module GraphCodec {
  import opened Base
  import opened Bytes
  import opened Collections
  import opened HnswGraphs
  import opened WalCodec
  import CompactGraphs

  const GRAPH_HEADER: seq<byte> := [0x46, 0x56, 0x48, 0x47, 2]   // FVHG, version 2
  const MAX_LEVEL: nat := 32
  const MAX_NODES: nat := 100_000_000
  const NO_ENTRY: nat := 0xffff_ffff_ffff_ffff

  datatype Metric = Cosine | DotProduct | Euclidean

  datatype Storage = F32 | ScalarInt8

  /** Components, or a scale with one signed byte per component. */
  datatype StoredVector = Floats(components: Vector) | Codes(scale: int, codes: seq<int>)

  datatype Header = Header(
    dimension: nat, metric: Metric, storage: Storage, params: Params, count: nat, entry: Option<nat>, maxLevel: nat)

  datatype NodeRecord = NodeRecord(id: string, vector: StoredVector, layers: seq<seq<nat>>)

  datatype GraphFile = GraphFile(header: Header, nodes: seq<NodeRecord>)

  // ----- header ----------------------------------------------------------

  function MetricTag(m: Metric): nat {
    match m
    case Cosine => 1
    case DotProduct => 2
    case Euclidean => 3
  }

  function ParseMetric(tag: nat): Option<Metric> {
    if tag == 1 then Some(Cosine) else if tag == 2 then Some(DotProduct) else if tag == 3 then Some(Euclidean) else None
  }

  function StorageTag(s: Storage): nat { if s.F32? then 1 else 2 }

  function ParseStorage(tag: nat): Option<Storage> {
    if tag == 1 then Some(F32) else if tag == 2 then Some(ScalarInt8) else None
  }

  type HeaderParts = ((), ((nat, (nat, nat)), ((nat, nat), (nat, (nat, nat)))))

  function PartsOfHeader(): Codec<HeaderParts> {
    Pair(Fixed(GRAPH_HEADER),
      Pair(Pair(Le(8), Pair(Le(1), Le(1))),
        Pair(Pair(Le(4), Le(4)), Pair(Le(4), Pair(Le(8), Le(4))))))
  }

  function EncodeHeader(h: Header): HeaderParts {
    ((), ((h.dimension, (MetricTag(h.metric), StorageTag(h.storage))),
      ((h.params.m, h.params.ef), (h.count, (if h.entry.None? then NO_ENTRY else h.entry.value, h.maxLevel)))))
  }

  function DecodeHeader(x: HeaderParts): Option<Header> {
    var ((dimension, (metric, storage)), ((m, ef), (count, (entry, maxLevel)))) := x.1;
    var params := Params(m, ef);
    if ParseMetric(metric).None? || ParseStorage(storage).None? || dimension == 0 || !ValidParams(params)
      || count > MAX_NODES || maxLevel > MAX_LEVEL then None
    else Some(Header(dimension, ParseMetric(metric).value, ParseStorage(storage).value, params, count,
                     if entry == NO_ENTRY then None else Some(entry), maxLevel))
  }

  function HeaderCodec(): Codec<Header> { Convert(PartsOfHeader(), DecodeHeader, EncodeHeader) }

  predicate HeaderWritable(h: Header) {
    && 0 < h.dimension < U64_LIMIT && ValidParams(h.params) && h.params.ef < U32_LIMIT
    && h.count < U32_LIMIT && h.maxLevel <= MAX_LEVEL && (h.entry.Some? ==> h.entry.value < NO_ENTRY)
  }

  lemma HeaderDecides(h: Header)
    requires HeaderWritable(h)
    ensures Decides(HeaderCodec(), h, h.count <= MAX_NODES)
  {
    HeaderPartsInvert(h);
    ConvertDecides(PartsOfHeader(), DecodeHeader, EncodeHeader, h, true);
  }

  lemma HeaderPartsInvert(h: Header)
    requires HeaderWritable(h)
    ensures Inverts(PartsOfHeader(), EncodeHeader(h))
  {
    Limits();
    var x := EncodeHeader(h);
    var kind, params, rest := Pair(Le(8), Pair(Le(1), Le(1))), Pair(Le(4), Le(4)), Pair(Le(4), Pair(Le(8), Le(4)));
    FixedInverts(GRAPH_HEADER);
    LeInverts(h.dimension, 8);
    LeInverts(MetricTag(h.metric), 1);
    LeInverts(StorageTag(h.storage), 1);
    PairInverts(Le(1), Le(1), x.1.0.1);
    PairInverts(Le(8), Pair(Le(1), Le(1)), x.1.0);
    LeInverts(h.params.m, 4);
    LeInverts(h.params.ef, 4);
    PairInverts(Le(4), Le(4), x.1.1.0);
    PositionInverts(x.1.1.1);
    PairInverts(params, rest, x.1.1);
    PairInverts(kind, Pair(params, rest), x.1);
    PairInverts(Fixed(GRAPH_HEADER), Pair(kind, Pair(params, rest)), x);
  }

  /** Node count, entry point and highest level. */
  lemma PositionInverts(x: (nat, (nat, nat)))
    requires x.0 < U32_LIMIT && x.1.0 < U64_LIMIT && x.1.1 < U32_LIMIT
    ensures Inverts(Pair(Le(4), Pair(Le(8), Le(4))), x)
  {
    Limits();
    LeInverts(x.0, 4);
    LeInverts(x.1.0, 8);
    LeInverts(x.1.1, 4);
    PairInverts(Le(8), Le(4), x.1);
    PairInverts(Le(4), Pair(Le(8), Le(4)), x);
  }

  // ----- vectors ---------------------------------------------------------

  function DecodeFloats(v: Vector): Option<StoredVector> { Some(Floats(v)) }
  function EncodeFloats(v: StoredVector): Vector { if v.Floats? then v.components else [] }

  /** A finite positive pattern. */
  predicate PositiveComponent(c: int) { 0 < c < 0x7f80_0000 }

  function SignedByte(n: nat): int { if n < 128 then n else n - 256 }

  function DecodeCode(n: nat): Option<int> { Some(SignedByte(n)) }
  function EncodeCode(c: int): nat { c % 256 }

  function Code(): Codec<int> { Convert(Le(1), DecodeCode, EncodeCode) }

  type CodeParts = (nat, seq<int>)

  function DecodeCodes(x: CodeParts): Option<StoredVector> {
    if PositiveComponent(x.0) then Some(Codes(x.0, x.1)) else None
  }

  function EncodeCodes(v: StoredVector): CodeParts {
    if v.Codes? && v.scale >= 0 then (v.scale, v.codes) else (0, [])
  }

  function StoredVectorCodec(h: Header): Codec<StoredVector> {
    if h.storage.F32? then Convert(Times(h.dimension, Component()), DecodeFloats, EncodeFloats)
    else Convert(Pair(Le(4), Times(h.dimension, Code())), DecodeCodes, EncodeCodes)
  }

  ghost predicate StoredVectorWritable(h: Header, v: StoredVector) {
    match v
    case Floats(components) => h.storage.F32? && |components| == h.dimension && VectorWritable(components)
    case Codes(scale, codes) =>
      && h.storage.ScalarInt8? && |codes| == h.dimension && 0 <= scale < U32_LIMIT
      && forall i :: 0 <= i < |codes| ==> -128 <= codes[i] < 128
  }

  predicate StoredVectorWithin(v: StoredVector) {
    if v.Floats? then FiniteVector(v.components) else PositiveComponent(v.scale)
  }

  lemma CodesInvert(codes: seq<int>)
    requires forall i :: 0 <= i < |codes| ==> -128 <= codes[i] < 128
    ensures InvertsAll(Code(), codes)
  {
    Limits();
    forall i | 0 <= i < |codes| ensures Inverts(Code(), codes[i]) {
      LeInverts(EncodeCode(codes[i]), 1);
      ConvertInverts(Le(1), DecodeCode, EncodeCode, codes[i]);
    }
  }

  lemma StoredVectorDecides(h: Header, v: StoredVector)
    requires StoredVectorWritable(h, v)
    ensures Decides(StoredVectorCodec(h), v, StoredVectorWithin(v))
  {
    match v
    case Floats(components) =>
      VectorDecides(components);
      ConvertDecides(Times(h.dimension, Component()), DecodeFloats, EncodeFloats, v, FiniteVector(components));
    case Codes(scale, codes) =>
      Limits();
      LeInverts(scale, 4);
      CodesInvert(codes);
      TimesInverts(Code(), codes);
      PairInverts(Le(4), Times(h.dimension, Code()), EncodeCodes(v));
      ConvertDecides(Pair(Le(4), Times(h.dimension, Code())), DecodeCodes, EncodeCodes, v, true);
  }

  // ----- nodes -----------------------------------------------------------

  function GraphText(pf: Platform): Codec<string> { Convert(Blob(U32_LIMIT - 1), pf.text, pf.utf8) }

  function LayerList(): Codec<seq<seq<nat>>> { Counted(MAX_LEVEL + 1, Counted(U32_LIMIT - 1, Le(4))) }

  /** A node has a layer, and no list is longer than its layer allows. */
  predicate LayersAllowed(p: Params, layers: seq<seq<nat>>) {
    layers != [] && forall l :: 0 <= l < |layers| ==> |layers[l]| <= MaxConnections(p, l)
  }

  type NodeParts = (string, (StoredVector, seq<seq<nat>>))

  function DecodeNode(h: Header): NodeParts -> Option<NodeRecord> {
    (x: NodeParts) =>
      if x.0 == "" || !LayersAllowed(h.params, x.1.1) then None else Some(NodeRecord(x.0, x.1.0, x.1.1))
  }

  function EncodeNode(r: NodeRecord): NodeParts { (r.id, (r.vector, r.layers)) }

  function PartsOfNode(pf: Platform, h: Header): Codec<NodeParts> {
    Pair(GraphText(pf), Pair(StoredVectorCodec(h), LayerList()))
  }

  function NodeCodec(pf: Platform, h: Header): Codec<NodeRecord> {
    Convert(PartsOfNode(pf, h), DecodeNode(h), EncodeNode)
  }

  ghost predicate NodeWritable(pf: Platform, h: Header, r: NodeRecord) {
    && r.id != "" && TextWritable(pf, r.id)
    && StoredVectorWritable(h, r.vector)
    && LayersAllowed(h.params, r.layers) && |r.layers| <= MAX_LEVEL + 1
    && forall l :: 0 <= l < |r.layers| ==> LinksFit(r.layers[l])
  }

  ghost predicate LinksFit(links: seq<nat>) {
    |links| < U32_LIMIT && forall k :: 0 <= k < |links| ==> links[k] < U32_LIMIT
  }

  lemma LayersInvert(layers: seq<seq<nat>>)
    requires |layers| <= MAX_LEVEL + 1 && forall l :: 0 <= l < |layers| ==> LinksFit(layers[l])
    ensures Inverts(LayerList(), layers)
  {
    Limits();
    var one := Counted(U32_LIMIT - 1, Le(4));
    forall l | 0 <= l < |layers| ensures Inverts(one, layers[l]) {
      assert LinksFit(layers[l]);
      forall k | 0 <= k < |layers[l]| ensures Inverts(Le(4), layers[l][k]) { LeInverts(layers[l][k], 4); }
      CountedInverts(U32_LIMIT - 1, Le(4), layers[l]);
    }
    CountedInverts(MAX_LEVEL + 1, one, layers);
  }

  predicate NodeWithin(r: NodeRecord) { StoredVectorWithin(r.vector) }

  lemma NodeDecides(pf: Platform, h: Header, r: NodeRecord)
    requires NodeWritable(pf, h, r)
    ensures Decides(NodeCodec(pf, h), r, NodeWithin(r))
  {
    BlobInverts(U32_LIMIT - 1, pf.utf8(r.id));
    ConvertInverts(Blob(U32_LIMIT - 1), pf.text, pf.utf8, r.id);
    StoredVectorDecides(h, r.vector);
    LayersInvert(r.layers);
    PairDecides(StoredVectorCodec(h), LayerList(), (r.vector, r.layers), NodeWithin(r), true);
    PairDecides(GraphText(pf), Pair(StoredVectorCodec(h), LayerList()), EncodeNode(r), true, NodeWithin(r));
    ConvertDecides(PartsOfNode(pf, h), DecodeNode(h), EncodeNode, r, NodeWithin(r));
  }

  // ----- graphs ----------------------------------------------------------

  predicate LinksInRange(layers: seq<seq<nat>>, i: nat, n: nat) {
    forall l :: 0 <= l < |layers| ==> forall k :: 0 <= k < |layers[l]| ==> layers[l][k] < n && layers[l][k] != i
  }

  predicate EntryAllowed(g: GraphFile) {
    var entry := g.header.entry;
    if g.nodes == [] then entry.None? && g.header.maxLevel == 0
    else entry.Some? && entry.value < |g.nodes| && |g.nodes[entry.value].layers| > g.header.maxLevel
  }

  function AdjacencyOf(nodes: seq<NodeRecord>): seq<Node> {
    seq(|nodes|, i requires 0 <= i < |nodes| =>
      Node(if nodes[i].layers == [] then 0 else |nodes[i].layers| - 1, nodes[i].layers))
  }

  /** What `decode_inner` checks once everything is read. */
  predicate Consistent(g: GraphFile) {
    && (forall i, j :: 0 <= i < j < |g.nodes| ==> g.nodes[i].id != g.nodes[j].id)
    && EntryAllowed(g)
    && (forall i :: 0 <= i < |g.nodes| ==> LinksInRange(g.nodes[i].layers, i, |g.nodes|))
    && CompactGraphs.RangeCount(AdjacencyOf(g.nodes), |g.nodes|) < U32_LIMIT
    && CompactGraphs.LinkCount(AdjacencyOf(g.nodes), |g.nodes|) < U32_LIMIT
  }

  type GraphParts = (Header, seq<NodeRecord>)

  function DecodeParts(x: GraphParts): Option<GraphFile> {
    if Consistent(GraphFile(x.0, x.1)) then Some(GraphFile(x.0, x.1)) else None
  }

  function EncodeParts(g: GraphFile): GraphParts { (g.header, g.nodes) }

  function NodesCodec(pf: Platform): Header -> Codec<seq<NodeRecord>> {
    (h: Header) => Times(h.count, NodeCodec(pf, h))
  }

  function PartsOfGraph(pf: Platform): Codec<GraphParts> { Dependent(HeaderCodec(), NodesCodec(pf)) }

  function GraphFileCodec(pf: Platform): Codec<GraphFile> { Convert(PartsOfGraph(pf), DecodeParts, EncodeParts) }

  function EncodeGraph(pf: Platform, g: GraphFile): seq<byte> { GraphFileCodec(pf).put(g, 0) }

  /** `decode`: the graph must end with the last byte. */
  function DecodeGraph(pf: Platform, bytes: seq<byte>): Result<GraphFile> {
    var g := GraphFileCodec(pf).read(bytes, 0);
    if g.Err? then Err(g.error)
    else if g.value.next != |bytes| then Err(CorruptStorage)
    else Ok(g.value.value)
  }

  /** A graph that can be written: what `build` guarantees of it, and numbers that fit their fields. */
  ghost predicate GraphWritable(pf: Platform, g: GraphFile) {
    && HeaderWritable(g.header) && g.header.count == |g.nodes| && Consistent(g)
    && forall i :: 0 <= i < |g.nodes| ==> NodeWritable(pf, g.header, g.nodes[i])
  }

  /** What only the reader demands. */
  predicate GraphWithin(g: GraphFile) {
    |g.nodes| <= 100_000_000 && forall i :: 0 <= i < |g.nodes| ==> NodeWithin(g.nodes[i])
  }

  lemma GraphDecides(pf: Platform, g: GraphFile)
    requires GraphWritable(pf, g)
    ensures Decides(GraphFileCodec(pf), g, GraphWithin(g))
  {
    var one, few := NodeCodec(pf, g.header), g.header.count <= MAX_NODES;
    var all := forall i :: 0 <= i < |g.nodes| ==> NodeWithin(g.nodes[i]);
    HeaderDecides(g.header);
    forall i | 0 <= i < |g.nodes| ensures Decides(one, g.nodes[i], NodeWithin(g.nodes[i])) {
      NodeDecides(pf, g.header, g.nodes[i]);
    }
    TimesDecides(one, g.nodes, NodeWithin);
    DependentDecides(HeaderCodec(), NodesCodec(pf), EncodeParts(g), few, all);
    ConvertDecides(PartsOfGraph(pf), DecodeParts, EncodeParts, g, few && all);
  }

  /**
   Decoding an encoded graph gives it back if and only if it has at most 100,000,000 nodes, finite
   components and positive scales; otherwise the reader refuses it.
   */
  lemma GraphRoundTripIff(pf: Platform, g: GraphFile)
    requires GraphWritable(pf, g)
    ensures var found := DecodeGraph(pf, EncodeGraph(pf, g));
      if GraphWithin(g) then found == Ok(g) else found.Err?
  {
    GraphDecides(pf, g);
    var bytes := EncodeGraph(pf, g);
    assert bytes[0..0 + |bytes|] == bytes;
    assert Holds(bytes, 0, GraphFileCodec(pf).put(g, 0));
    assert GraphWithin(g) ==> GraphFileCodec(pf).read(bytes, 0) == Ok(Parsed(g, |bytes|));
    assert !GraphWithin(g) ==> GraphFileCodec(pf).read(bytes, 0).Err?;
  }

  // ----- encoded length --------------------------------------------------

  function LayerLength(links: seq<nat>): nat { 4 + 4 * |links| }

  function VectorLength(h: Header): nat { if h.storage.F32? then 4 * h.dimension else 4 + h.dimension }

  function NodeLength(pf: Platform, h: Header, r: NodeRecord): nat {
    4 + |pf.utf8(r.id)| + VectorLength(h) + 4 + TotalLength(LayerLength, r.layers, 0)
  }

  function RecordLength(pf: Platform, h: Header): NodeRecord -> nat { (r: NodeRecord) => NodeLength(pf, h, r) }

  method MeasureNode(pf: Platform, h: Header, r: NodeRecord) returns (length: nat)
    ensures length == NodeLength(pf, h, r)
  {
    length := 4 + |pf.utf8(r.id)| + VectorLength(h) + 4;
    for l := 0 to |r.layers|
      invariant length + TotalLength(LayerLength, r.layers, l) == NodeLength(pf, h, r)
    {
      length := length + 4 + 4 * |r.layers[l]|;
    }
  }

  method Measure(pf: Platform, g: GraphFile) returns (length: nat)
    ensures length == 39 + TotalLength(RecordLength(pf, g.header), g.nodes, 0)
  {
    length := 39;
    ghost var len := RecordLength(pf, g.header);
    for i := 0 to |g.nodes|
      invariant length + TotalLength(len, g.nodes, i) == 39 + TotalLength(len, g.nodes, 0)
    {
      var node := MeasureNode(pf, g.header, g.nodes[i]);
      length := length + node;
    }
  }

  /** `encoded_len` predicts the bytes that `encode_into` writes. */
  method EncodedLength(pf: Platform, g: GraphFile) returns (length: nat)
    requires GraphWritable(pf, g)
    ensures length == |EncodeGraph(pf, g)|
  {
    length := Measure(pf, g);
    GraphLength(pf, g);
  }

  function Four(n: nat): nat { 4 }
  function One(c: int): nat { 1 }
  function FourBytes(c: int): nat { 4 }

  lemma LayersTake(layers: seq<seq<nat>>)
    ensures Takes(LayerList(), layers, 4 + TotalLength(LayerLength, layers, 0))
  {
    var one := Counted(U32_LIMIT - 1, Le(4));
    forall l | 0 <= l < |layers| ensures Takes(one, layers[l], LayerLength(layers[l])) {
      forall k | 0 <= k < |layers[l]| ensures Takes(Le(4), layers[l][k], Four(layers[l][k])) {
        LeTakes(layers[l][k], 4);
      }
      CountedTakes(U32_LIMIT - 1, Le(4), Four, layers[l]);
      EqualLengths(Four, layers[l], 0, 4);
    }
    CountedTakes(MAX_LEVEL + 1, one, LayerLength, layers);
  }

  lemma ComponentsTake(n: nat, v: Vector)
    ensures Takes(Times(n, Component()), v, 4 * |v|)
  {
    forall i | 0 <= i < |v| ensures Takes(Component(), v[i], FourBytes(v[i])) {
      LeTakes(EncodeComponent(v[i]), 4);
      ConvertTakes(Le(4), DecodeComponent, EncodeComponent, v[i], 4);
    }
    TimesTakes(n, Component(), FourBytes, v);
    EqualLengths(FourBytes, v, 0, 4);
  }

  lemma CodesTake(n: nat, codes: seq<int>)
    ensures Takes(Times(n, Code()), codes, |codes|)
  {
    forall i | 0 <= i < |codes| ensures Takes(Code(), codes[i], One(codes[i])) {
      LeTakes(EncodeCode(codes[i]), 1);
      ConvertTakes(Le(1), DecodeCode, EncodeCode, codes[i], 1);
    }
    TimesTakes(n, Code(), One, codes);
    EqualLengths(One, codes, 0, 1);
  }

  lemma VectorTakes(h: Header, v: StoredVector)
    requires StoredVectorWritable(h, v)
    ensures Takes(StoredVectorCodec(h), v, VectorLength(h))
  {
    match v
    case Floats(components) =>
      ComponentsTake(h.dimension, components);
      ConvertTakes(Times(h.dimension, Component()), DecodeFloats, EncodeFloats, v, 4 * h.dimension);
    case Codes(scale, codes) =>
      LeTakes(scale, 4);
      CodesTake(h.dimension, codes);
      PairTakes(Le(4), Times(h.dimension, Code()), EncodeCodes(v), 4, h.dimension);
      ConvertTakes(Pair(Le(4), Times(h.dimension, Code())), DecodeCodes, EncodeCodes, v, 4 + h.dimension);
  }

  lemma NodeTakes(pf: Platform, h: Header, r: NodeRecord)
    requires NodeWritable(pf, h, r)
    ensures Takes(NodeCodec(pf, h), r, NodeLength(pf, h, r))
  {
    var id, layers := 4 + |pf.utf8(r.id)|, 4 + TotalLength(LayerLength, r.layers, 0);
    BlobTakes(U32_LIMIT - 1, pf.utf8(r.id));
    ConvertTakes(Blob(U32_LIMIT - 1), pf.text, pf.utf8, r.id, id);
    VectorTakes(h, r.vector);
    LayersTake(r.layers);
    PairTakes(StoredVectorCodec(h), LayerList(), (r.vector, r.layers), VectorLength(h), layers);
    PairTakes(GraphText(pf), Pair(StoredVectorCodec(h), LayerList()), EncodeNode(r), id, VectorLength(h) + layers);
    ConvertTakes(PartsOfNode(pf, h), DecodeNode(h), EncodeNode, r, NodeLength(pf, h, r));
  }

  lemma HeaderTakes(h: Header)
    ensures Takes(HeaderCodec(), h, 39)
  {
    var x := EncodeHeader(h);
    FixedTakes(GRAPH_HEADER);
    LeTakes(h.dimension, 8);
    LeTakes(MetricTag(h.metric), 1);
    LeTakes(StorageTag(h.storage), 1);
    LeTakes(h.params.m, 4);
    LeTakes(h.params.ef, 4);
    LeTakes(h.count, 4);
    LeTakes(x.1.1.1.1.0, 8);
    LeTakes(h.maxLevel, 4);
    PairTakes(Le(1), Le(1), x.1.0.1, 1, 1);
    PairTakes(Le(8), Pair(Le(1), Le(1)), x.1.0, 8, 2);
    PairTakes(Le(4), Le(4), x.1.1.0, 4, 4);
    PairTakes(Le(8), Le(4), x.1.1.1.1, 8, 4);
    PairTakes(Le(4), Pair(Le(8), Le(4)), x.1.1.1, 4, 12);
    PairTakes(Pair(Le(4), Le(4)), Pair(Le(4), Pair(Le(8), Le(4))), x.1.1, 8, 16);
    PairTakes(Pair(Le(8), Pair(Le(1), Le(1))), Pair(Pair(Le(4), Le(4)), Pair(Le(4), Pair(Le(8), Le(4)))), x.1, 10, 24);
    PairTakes(Fixed(GRAPH_HEADER),
      Pair(Pair(Le(8), Pair(Le(1), Le(1))), Pair(Pair(Le(4), Le(4)), Pair(Le(4), Pair(Le(8), Le(4))))), x, 5, 34);
    ConvertTakes(PartsOfHeader(), DecodeHeader, EncodeHeader, h, 39);
  }

  lemma GraphLength(pf: Platform, g: GraphFile)
    requires GraphWritable(pf, g)
    ensures |EncodeGraph(pf, g)| == 39 + TotalLength(RecordLength(pf, g.header), g.nodes, 0)
  {
    var one, len := NodeCodec(pf, g.header), RecordLength(pf, g.header);
    HeaderTakes(g.header);
    forall i | 0 <= i < |g.nodes| ensures Takes(one, g.nodes[i], len(g.nodes[i])) {
      NodeTakes(pf, g.header, g.nodes[i]);
    }
    TimesTakes(g.header.count, one, len, g.nodes);
    var total := TotalLength(len, g.nodes, 0);
    DependentTakes(HeaderCodec(), NodesCodec(pf), EncodeParts(g), 39, total);
    ConvertTakes(PartsOfGraph(pf), DecodeParts, EncodeParts, g, 39 + total);
    assert Takes(GraphFileCodec(pf), g, 39 + total);
  }
}
