/**
 The files byte by byte: frames with their header bytes and checksum, the payloads
 of the log, segments and graphs, each written out flat with its tags and widths.
 */
module FileLayouts {
  import opened Base
  import opened Bytes
  import opened Checksums
  import opened Filters
  import opened Collections
  import opened Durability
  import opened Framing
  import opened WalCodec
  import opened GraphCodec
  import opened SegmentCodec
  import opened HnswGraphs

  // ----- numbers and frames ----------------------------------------------

  lemma LowFirst(low: byte, rest: nat, k: nat)
    ensures PutLe(low as nat + 256 * rest, k + 1) == [low] + PutLe(rest, k)
  {
    assert (low as nat + 256 * rest) / 256 == rest;
  }

  /** The lowest byte comes first. */
  lemma LittleEndian()
    ensures PutLe(0x0403_0201, 4) == [1, 2, 3, 4]
  {
    LowFirst(4, 0, 0);
    LowFirst(3, 4, 1);
    LowFirst(2, 0x0403, 2);
    LowFirst(1, 0x0403_02, 3);
  }

  const DIGITS: Payload := [0x31, 0x32, 0x33, 0x34, 0x35, 0x36, 0x37, 0x38, 0x39]

  /** One frame of each file, down to the last byte. */
  lemma FrameBytes()
    ensures EncodeFrame(WAL, DIGITS)
      == [0x46, 0x56, 0x57, 0x4c, 9, 0, 0, 0] + DIGITS + [0x83, 0x92, 0x06, 0xe3]
    ensures EncodeFrame(RAFT_JOURNAL, DIGITS)
      == [0x46, 0x56, 0x52, 0x4a, 1, 9, 0, 0, 0] + DIGITS + [0x83, 0x92, 0x06, 0xe3]
    ensures EncodeFrame(STATE_JOURNAL, DIGITS)
      == [0x46, 0x56, 0x52, 0x53, 1, 9, 0, 0, 0] + DIGITS + [0x83, 0x92, 0x06, 0xe3]
    ensures WAL.limit == 268_435_456 && RAFT_JOURNAL.limit == 67_108_864 && STATE_JOURNAL.limit == 268_435_456
  {
    CrcOfDigits();
    assert CrcBytes(0xe306_9283) == [0x83, 0x92, 0x06, 0xe3];
    assert PutLe(9, 4) == [9, 0, 0, 0] by {
      assert PutLe(0, 1) == [0] && PutLe(0, 2) == [0, 0] && PutLe(0, 3) == [0, 0, 0];
    }
  }

  // ----- what a codec writes ---------------------------------------------

  /** Wherever it writes `x`, the codec writes these bytes. */
  ghost predicate Writes<T>(c: Codec<T>, x: T, bytes: seq<byte>) {
    forall pos: nat {:trigger c.put(x, pos)} :: c.put(x, pos) == bytes
  }

  lemma PairWrites<A, B>(first: Codec<A>, second: Codec<B>, x: (A, B), a: seq<byte>, b: seq<byte>)
    requires Writes(first, x.0, a) && Writes(second, x.1, b)
    ensures Writes(Pair(first, second), x, a + b)
  {
  }

  lemma DependentWrites<A, B>(first: Codec<A>, rest: A -> Codec<B>, x: (A, B), a: seq<byte>, b: seq<byte>)
    requires Writes(first, x.0, a) && Writes(rest(x.0), x.1, b)
    ensures Writes(Dependent(first, rest), x, a + b)
  {
  }

  lemma ConvertWrites<A, B>(inner: Codec<A>, decode: A -> Option<B>, encode: B -> A, x: B, bytes: seq<byte>)
    requires Writes(inner, encode(x), bytes)
    ensures Writes(Convert(inner, decode, encode), x, bytes)
  {
  }

  lemma TaggedWrites<T>(tag: T -> byte, body: byte -> Codec<T>, x: T, bytes: seq<byte>)
    requires Writes(body(tag(x)), x, bytes)
    ensures Writes(Tagged(tag, body), x, [tag(x)] + bytes)
  {
  }

  lemma LeWrites(k: nat, n: nat)
    ensures Writes(Le(k), n, PutLe(n, k))
  {
  }

  /** The items behind each other. */
  function Joined<T>(bytes: T -> seq<byte>, items: seq<T>, i: nat): seq<byte>
    requires i <= |items|
    decreases |items| - i
  {
    if i == |items| then [] else bytes(items[i]) + Joined(bytes, items, i + 1)
  }

  ghost predicate WritesAll<T>(c: Codec<T>, items: seq<T>, bytes: T -> seq<byte>) {
    forall j {:trigger items[j]} :: 0 <= j < |items| ==> Writes(c, items[j], bytes(items[j]))
  }

  lemma {:induction false} ManyJoined<T>(c: Codec<T>, items: seq<T>, bytes: T -> seq<byte>, i: nat, pos: nat)
    requires i <= |items| && WritesAll(c, items, bytes)
    ensures PutMany(c.put, items, i, pos) == Joined(bytes, items, i)
    decreases |items| - i
  {
    if i < |items| {
      assert Writes(c, items[i], bytes(items[i]));
      ManyJoined(c, items, bytes, i + 1, pos + |c.put(items[i], pos)|);
    }
  }

  lemma TimesWrites<T>(c: Codec<T>, n: nat, items: seq<T>, bytes: T -> seq<byte>)
    requires WritesAll(c, items, bytes)
    ensures Writes(Times(n, c), items, Joined(bytes, items, 0))
  {
    forall pos: nat ensures Times(n, c).put(items, pos) == Joined(bytes, items, 0) {
      ManyJoined(c, items, bytes, 0, pos);
    }
  }

  lemma CountedPut<T>(limit: nat, c: Codec<T>, items: seq<T>, pos: nat)
    ensures Counted(limit, c).put(items, pos) == PutLe(|items|, 4) + PutMany(c.put, items, 0, pos + 4)
  {
  }

  lemma PairPut<A, B>(first: Codec<A>, second: Codec<B>, x: (A, B), pos: nat, a: seq<byte>, b: seq<byte>)
    requires first.put(x.0, pos) == a && second.put(x.1, pos + |a|) == b
    ensures Pair(first, second).put(x, pos) == a + b
  {
  }

  lemma CountedWrites<T>(limit: nat, c: Codec<T>, items: seq<T>, bytes: T -> seq<byte>)
    requires WritesAll(c, items, bytes)
    ensures Writes(Counted(limit, c), items, PutLe(|items|, 4) + Joined(bytes, items, 0))
  {
    forall pos: nat ensures Counted(limit, c).put(items, pos) == PutLe(|items|, 4) + Joined(bytes, items, 0) {
      CountedPut(limit, c, items, pos);
      ManyJoined(c, items, bytes, 0, pos + 4);
    }
  }

  lemma OneByte(n: nat)
    requires n < 256
    ensures PutLe(n, 1) == [n as byte]
  {
  }

  // ----- the payloads of the log -----------------------------------------

  /** A string is its length in four bytes and its UTF-8. */
  function TextBytes(pf: Platform): string -> seq<byte> { (s: string) => PutLe(|pf.utf8(s)|, 4) + pf.utf8(s) }

  lemma TextLayout(pf: Platform, s: string)
    ensures Writes(Text(pf), s, TextBytes(pf)(s))
  {
  }

  /** The tag of a value, and what follows it. */
  function ValueBytes(pf: Platform, v: Value): seq<byte> {
    match v
    case Keyword(text) => [1] + TextBytes(pf)(text)
    case Integer(n) => [2] + PutLe(n % 0x1_0000_0000_0000_0000, 8)
    case Float(x) => [3] + PutLe(pf.bits(x), 8)
    case Boolean(flag) => [4, if flag then 1 else 0]
  }

  lemma ValueLayout(pf: Platform, v: Value)
    ensures Writes(ValueCodec(pf), v, ValueBytes(pf, v))
  {
    var body := ValueBytes(pf, v)[1..];
    match v {
      case Keyword(text) =>
        TextLayout(pf, text);
        ConvertWrites(Text(pf), DecodeKeyword, EncodeKeyword, v, body);
      case Integer(n) =>
        LeWrites(8, EncodeInteger(v));
        ConvertWrites(Le(8), DecodeInteger, EncodeInteger, v, body);
      case Float(x) =>
        LeWrites(8, pf.bits(x));
        ConvertWrites(Le(8), DecodeFloat(pf), EncodeFloat(pf), v, body);
      case Boolean(flag) =>
        LeWrites(1, EncodeBoolean(v));
        OneByte(EncodeBoolean(v));
        ConvertWrites(Le(1), DecodeBoolean, EncodeBoolean, v, body);
    }
    TaggedWrites(TagOf, ValueBody(pf), v, body);
    assert [TagOf(v)] + body == ValueBytes(pf, v);
  }

  function EntryBytes(pf: Platform): Entry -> seq<byte> {
    (e: Entry) => TextBytes(pf)(e.0) + ValueBytes(pf, e.1)
  }

  /** A number of fields in four bytes, then each key with its value, in the order of the keys. */
  function MetadataBytes(pf: Platform, m: Metadata): seq<byte> {
    PutLe(|pf.keys(m)|, 4) + Joined(EntryBytes(pf), Entries(pf, m), 0)
  }

  lemma MetadataLayout(pf: Platform, m: Metadata)
    ensures Writes(MetadataCodec(pf), m, MetadataBytes(pf, m))
  {
    var entries, one := Entries(pf, m), Pair(Text(pf), ValueCodec(pf));
    forall j | 0 <= j < |entries| ensures Writes(one, entries[j], EntryBytes(pf)(entries[j])) {
      var e := entries[j];
      TextLayout(pf, e.0);
      ValueLayout(pf, e.1);
      PairWrites(Text(pf), ValueCodec(pf), e, TextBytes(pf)(e.0), ValueBytes(pf, e.1));
    }
    CountedWrites(MAX_ITEMS, one, entries, EntryBytes(pf));
    ConvertWrites(EntryList(pf), DecodeMetadata, EncodeMetadata(pf), m, MetadataBytes(pf, m));
  }

  /** A component is its bit pattern in four bytes. */
  function ComponentBytes(c: int): seq<byte> { PutLe(c % 0x1_0000_0000, 4) }

  lemma ComponentsLayout(v: Vector)
    ensures WritesAll(Component(), v, ComponentBytes)
  {
    forall j | 0 <= j < |v| ensures Writes(Component(), v[j], ComponentBytes(v[j])) {
      LeWrites(4, EncodeComponent(v[j]));
      ConvertWrites(Le(4), DecodeComponent, EncodeComponent, v[j], ComponentBytes(v[j]));
    }
  }

  /** ID, number of components, components, metadata. */
  function PointBytes(pf: Platform): UpsertPoint -> seq<byte> {
    (p: UpsertPoint) =>
      TextBytes(pf)(p.id)
      + ((PutLe(|p.vector|, 4) + Joined(ComponentBytes, p.vector, 0)) + MetadataBytes(pf, p.metadata))
  }

  lemma PointLayout(pf: Platform, dimension: nat, p: UpsertPoint)
    ensures Writes(PointCodec(pf, dimension), p, PointBytes(pf)(p))
  {
    var vector, metadata := VectorCodec(dimension), MetadataCodec(pf);
    var v, m := PutLe(|p.vector|, 4) + Joined(ComponentBytes, p.vector, 0), MetadataBytes(pf, p.metadata);
    TextLayout(pf, p.id);
    ComponentsLayout(p.vector);
    CountedWrites(MAX_ITEMS, Component(), p.vector, ComponentBytes);
    ConvertWrites(Counted(MAX_ITEMS, Component()), DecodeVector(dimension), Unchanged, p.vector, v);
    MetadataLayout(pf, p.metadata);
    PairWrites(vector, metadata, (p.vector, p.metadata), v, m);
    PairWrites(Text(pf), Pair(vector, metadata), EncodePoint(p), TextBytes(pf)(p.id), v + m);
    ConvertWrites(PartsCodec(pf, dimension), DecodePoint, EncodePoint, p, PointBytes(pf)(p));
  }

  /** Operation 1 or 2, the sequence number in eight bytes, the number of items in four, the items. */
  function PayloadBytes(pf: Platform, frame: Frame): seq<byte> {
    match frame.mutation
    case Upsert(points) => [1] + PutLe(frame.sequence, 8) + (PutLe(|points|, 4) + Joined(PointBytes(pf), points, 0))
    case Delete(ids) => [2] + PutLe(frame.sequence, 8) + (PutLe(|ids|, 4) + Joined(TextBytes(pf), ids, 0))
  }

  /** `encode_upsert` and `encode_delete`, flat. */
  lemma PayloadLayout(pf: Platform, dimension: nat, frame: Frame)
    ensures EncodePayload(pf, dimension, frame) == PayloadBytes(pf, frame)
  {
    match frame.mutation
    case Upsert(points) =>
      var one := PointCodec(pf, dimension);
      forall j | 0 <= j < |points| ensures Writes(one, points[j], PointBytes(pf)(points[j])) {
        PointLayout(pf, dimension, points[j]);
      }
      CountedWrites(MAX_ITEMS, one, points, PointBytes(pf));
      ConvertWrites(Counted(MAX_ITEMS, one), DecodeUpsert, EncodeUpsert, frame.mutation,
                    PutLe(|points|, 4) + Joined(PointBytes(pf), points, 0));
    case Delete(ids) =>
      forall j | 0 <= j < |ids| ensures Writes(Text(pf), ids[j], TextBytes(pf)(ids[j])) {
        TextLayout(pf, ids[j]);
      }
      CountedWrites(MAX_ITEMS, Text(pf), ids, TextBytes(pf));
      ConvertWrites(Counted(MAX_ITEMS, Text(pf)), DecodeDelete, EncodeDelete, frame.mutation,
                    PutLe(|ids|, 4) + Joined(TextBytes(pf), ids, 0));
  }

  // ----- graphs ----------------------------------------------------------

  /** `metric_tag`. */
  function MetricByte(m: Metric): seq<byte> {
    match m
    case Cosine => [1]
    case DotProduct => [2]
    case Euclidean => [3]
  }

  /** Magic and version, dimension, metric, storage, `m`, `ef`, number of nodes, entry point and highest level. */
  function HeaderBytes(h: Header): seq<byte> {
    [0x46, 0x56, 0x48, 0x47, 2]
    + ((PutLe(h.dimension, 8) + (MetricByte(h.metric) + [if h.storage.F32? then 1 else 2]))
       + ((PutLe(h.params.m, 4) + PutLe(h.params.ef, 4))
          + (PutLe(h.count, 4)
             + (PutLe(if h.entry.None? then 0xffff_ffff_ffff_ffff else h.entry.value, 8) + PutLe(h.maxLevel, 4)))))
  }

  lemma HeaderLayout(h: Header)
    ensures Writes(HeaderCodec(), h, HeaderBytes(h))
  {
    var entry := if h.entry.None? then NO_ENTRY else h.entry.value;
    var metric, storage := MetricTag(h.metric), StorageTag(h.storage);
    OneByte(metric);
    OneByte(storage);
    LeWrites(1, metric);
    LeWrites(1, storage);
    LeWrites(8, h.dimension);
    var kind := MetricByte(h.metric) + [if h.storage.F32? then 1 else 2];
    PairWrites(Le(1), Le(1), (metric, storage), PutLe(metric, 1), PutLe(storage, 1));
    assert PutLe(metric, 1) + PutLe(storage, 1) == kind;
    PairWrites(Le(8), Pair(Le(1), Le(1)), (h.dimension, (metric, storage)), PutLe(h.dimension, 8), kind);
    CountsLayout(h, entry);
    var counts := (PutLe(h.params.m, 4) + PutLe(h.params.ef, 4))
      + (PutLe(h.count, 4) + (PutLe(entry, 8) + PutLe(h.maxLevel, 4)));
    var first, second := Pair(Le(8), Pair(Le(1), Le(1))), Pair(Pair(Le(4), Le(4)), Pair(Le(4), Pair(Le(8), Le(4))));
    PairWrites(first, second, EncodeHeader(h).1, PutLe(h.dimension, 8) + kind, counts);
    PairWrites(Fixed(GRAPH_HEADER), Pair(first, second), EncodeHeader(h), GRAPH_HEADER,
               (PutLe(h.dimension, 8) + kind) + counts);
    ConvertWrites(PartsOfHeader(), DecodeHeader, EncodeHeader, h, HeaderBytes(h));
  }

  lemma CountsLayout(h: Header, entry: nat)
    ensures Writes(Pair(Pair(Le(4), Le(4)), Pair(Le(4), Pair(Le(8), Le(4)))),
      ((h.params.m, h.params.ef), (h.count, (entry, h.maxLevel))),
      (PutLe(h.params.m, 4) + PutLe(h.params.ef, 4)) + (PutLe(h.count, 4) + (PutLe(entry, 8) + PutLe(h.maxLevel, 4))))
  {
    var a, b := PutLe(h.params.m, 4) + PutLe(h.params.ef, 4), PutLe(entry, 8) + PutLe(h.maxLevel, 4);
    LeWrites(4, h.params.m);
    LeWrites(4, h.params.ef);
    LeWrites(4, h.count);
    LeWrites(8, entry);
    LeWrites(4, h.maxLevel);
    PairWrites(Le(4), Le(4), (h.params.m, h.params.ef), PutLe(h.params.m, 4), PutLe(h.params.ef, 4));
    PairWrites(Le(8), Le(4), (entry, h.maxLevel), PutLe(entry, 8), PutLe(h.maxLevel, 4));
    PairWrites(Le(4), Pair(Le(8), Le(4)), (h.count, (entry, h.maxLevel)), PutLe(h.count, 4), b);
    PairWrites(Pair(Le(4), Le(4)), Pair(Le(4), Pair(Le(8), Le(4))),
               ((h.params.m, h.params.ef), (h.count, (entry, h.maxLevel))), a, PutLe(h.count, 4) + b);
  }

  function CodeBytes(c: int): seq<byte> { PutLe(c % 256, 1) }

  /** Components, or the bit pattern of the scale and one byte for each component. */
  function StoredVectorBytes(v: StoredVector): seq<byte> {
    match v
    case Floats(components) => Joined(ComponentBytes, components, 0)
    case Codes(scale, codes) => ComponentBytes(scale) + Joined(CodeBytes, codes, 0)
  }

  lemma FloatsLayout(dimension: nat, components: Vector)
    ensures Writes(Convert(Times(dimension, Component()), DecodeFloats, EncodeFloats), Floats(components),
                   Joined(ComponentBytes, components, 0))
  {
    ComponentsLayout(components);
    TimesWrites(Component(), dimension, components, ComponentBytes);
    ConvertWrites(Times(dimension, Component()), DecodeFloats, EncodeFloats, Floats(components),
                  Joined(ComponentBytes, components, 0));
  }

  lemma CodesLayout(codes: seq<int>)
    ensures WritesAll(Code(), codes, CodeBytes)
  {
    forall j | 0 <= j < |codes| ensures Writes(Code(), codes[j], CodeBytes(codes[j])) {
      LeWrites(1, EncodeCode(codes[j]));
      ConvertWrites(Le(1), DecodeCode, EncodeCode, codes[j], CodeBytes(codes[j]));
    }
  }

  lemma QuantizedLayout(dimension: nat, scale: nat, codes: seq<int>)
    requires scale < 0x1_0000_0000
    ensures Writes(Convert(Pair(Le(4), Times(dimension, Code())), DecodeCodes, EncodeCodes), Codes(scale, codes),
                   ComponentBytes(scale) + Joined(CodeBytes, codes, 0))
  {
    CodesLayout(codes);
    TimesWrites(Code(), dimension, codes, CodeBytes);
    LeWrites(4, scale);
    PairWrites(Le(4), Times(dimension, Code()), (scale, codes), ComponentBytes(scale), Joined(CodeBytes, codes, 0));
    ConvertWrites(Pair(Le(4), Times(dimension, Code())), DecodeCodes, EncodeCodes, Codes(scale, codes),
                  ComponentBytes(scale) + Joined(CodeBytes, codes, 0));
  }

  lemma StoredVectorLayout(h: Header, v: StoredVector)
    requires StoredVectorWritable(h, v)
    ensures Writes(StoredVectorCodec(h), v, StoredVectorBytes(v))
  {
    match v
    case Floats(components) => FloatsLayout(h.dimension, components);
    case Codes(scale, codes) => QuantizedLayout(h.dimension, scale, codes);
  }

  function LinkBytes(t: nat): seq<byte> { PutLe(t, 4) }

  /** The number of links in four bytes, and four bytes for each. */
  function LayerBytes(links: seq<nat>): seq<byte> { PutLe(|links|, 4) + Joined(LinkBytes, links, 0) }

  function NodeBytes(pf: Platform): NodeRecord -> seq<byte> {
    (r: NodeRecord) =>
      TextBytes(pf)(r.id) + (StoredVectorBytes(r.vector) + (PutLe(|r.layers|, 4) + Joined(LayerBytes, r.layers, 0)))
  }

  lemma LayersLayout(layers: seq<seq<nat>>)
    ensures Writes(LayerList(), layers, PutLe(|layers|, 4) + Joined(LayerBytes, layers, 0))
  {
    var one := Counted(U32_LIMIT - 1, Le(4));
    forall l | 0 <= l < |layers| ensures Writes(one, layers[l], LayerBytes(layers[l])) {
      forall j | 0 <= j < |layers[l]| ensures Writes(Le(4), layers[l][j], LinkBytes(layers[l][j])) {
        LeWrites(4, layers[l][j]);
      }
      CountedWrites(U32_LIMIT - 1, Le(4), layers[l], LinkBytes);
    }
    CountedWrites(MAX_LEVEL + 1, one, layers, LayerBytes);
  }

  lemma NodeLayout(pf: Platform, h: Header, r: NodeRecord)
    requires StoredVectorWritable(h, r.vector)
    ensures Writes(NodeCodec(pf, h), r, NodeBytes(pf)(r))
  {
    var layers := PutLe(|r.layers|, 4) + Joined(LayerBytes, r.layers, 0);
    ConvertWrites(Blob(U32_LIMIT - 1), pf.text, pf.utf8, r.id, TextBytes(pf)(r.id));
    StoredVectorLayout(h, r.vector);
    LayersLayout(r.layers);
    PairWrites(StoredVectorCodec(h), LayerList(), (r.vector, r.layers), StoredVectorBytes(r.vector), layers);
    PairWrites(GraphText(pf), Pair(StoredVectorCodec(h), LayerList()), EncodeNode(r),
               TextBytes(pf)(r.id), StoredVectorBytes(r.vector) + layers);
    ConvertWrites(PartsOfNode(pf, h), DecodeNode(h), EncodeNode, r, NodeBytes(pf)(r));
  }

  function GraphBytes(pf: Platform, g: GraphFile): seq<byte> {
    HeaderBytes(g.header) + Joined(NodeBytes(pf), g.nodes, 0)
  }

  /** `encode_into`, flat. */
  lemma GraphLayout(pf: Platform, g: GraphFile)
    requires forall i :: 0 <= i < |g.nodes| ==> StoredVectorWritable(g.header, g.nodes[i].vector)
    ensures EncodeGraph(pf, g) == GraphBytes(pf, g)
  {
    var one := NodeCodec(pf, g.header);
    forall j | 0 <= j < |g.nodes| ensures Writes(one, g.nodes[j], NodeBytes(pf)(g.nodes[j])) {
      NodeLayout(pf, g.header, g.nodes[j]);
    }
    HeaderLayout(g.header);
    TimesWrites(one, g.header.count, g.nodes, NodeBytes(pf));
    DependentWrites(HeaderCodec(), NodesCodec(pf), EncodeParts(g), HeaderBytes(g.header),
                    Joined(NodeBytes(pf), g.nodes, 0));
    ConvertWrites(PartsOfGraph(pf), DecodeParts, EncodeParts, g, GraphBytes(pf, g));
  }

  // ----- segments --------------------------------------------------------

  /** Padding that brings the vector to a multiple of four, and the vector. */
  function AlignedBytes(v: Vector, pos: nat): seq<byte> {
    var padding := (4 - (pos + 1) % 4) % 4;
    [padding as byte] + (Zeros(padding) + Joined(ComponentBytes, v, 0))
  }

  /** ID, sequence, padding and components, metadata. */
  function StoredBytes(pf: Platform, p: StoredPoint, pos: nat): seq<byte> {
    var id := TextBytes(pf)(p.id);
    id + (PutLe(p.sequence, 8) + (AlignedBytes(p.vector, pos + |id| + 8) + MetadataBytes(pf, p.metadata)))
  }

  function StoredWriter(pf: Platform): Writer<StoredPoint> {
    (p: StoredPoint, pos: nat) => StoredBytes(pf, p, pos)
  }

  lemma AlignedPut<T>(inner: Codec<T>, x: T, pos: nat, bytes: seq<byte>)
    requires Writes(inner, x, bytes)
    ensures var padding := (4 - (pos + 1) % 4) % 4;
      Aligned(inner).put(x, pos) == [padding as byte] + (Zeros(padding) + bytes)
  {
    VectorOffsetIsAligned(pos);
  }

  lemma VectorLayout(dimension: nat, v: Vector, pos: nat)
    ensures Aligned(Times(dimension, Component())).put(v, pos) == AlignedBytes(v, pos)
  {
    ComponentsLayout(v);
    TimesWrites(Component(), dimension, v, ComponentBytes);
    AlignedPut(Times(dimension, Component()), v, pos, Joined(ComponentBytes, v, 0));
  }

  /** Four values one after the other. */
  lemma FourPut<A, B, C, D>(
      a: Codec<A>, b: Codec<B>, c: Codec<C>, d: Codec<D>, x: (A, (B, (C, D))), pos: nat,
      first: seq<byte>, second: seq<byte>, third: seq<byte>, fourth: seq<byte>)
    requires Writes(a, x.0, first) && Writes(b, x.1.0, second) && Writes(d, x.1.1.1, fourth)
    requires c.put(x.1.1.0, pos + |first| + |second|) == third
    ensures Pair(a, Pair(b, Pair(c, d))).put(x, pos) == first + (second + (third + fourth))
  {
    PairPut(c, d, x.1.1, pos + |first| + |second|, third, fourth);
    PairPut(b, Pair(c, d), x.1, pos + |first|, second, third + fourth);
    PairPut(a, Pair(b, Pair(c, d)), x, pos, first, second + (third + fourth));
  }

  /** The four parts of a stored point, as long as each writes what it should. */
  lemma StoredPartsLayout(
      pf: Platform, p: StoredPoint, pos: nat, id: Codec<Id>, number: Codec<nat>, vector: Codec<Vector>,
      metadata: Codec<Metadata>)
    requires Writes(id, p.id, TextBytes(pf)(p.id)) && Writes(number, p.sequence, PutLe(p.sequence, 8))
    requires Writes(metadata, p.metadata, MetadataBytes(pf, p.metadata))
    requires var at := pos + |TextBytes(pf)(p.id)| + 8; vector.put(p.vector, at) == AlignedBytes(p.vector, at)
    ensures Pair(id, Pair(number, Pair(vector, metadata))).put(EncodeStored(p), pos) == StoredBytes(pf, p, pos)
  {
    var first := TextBytes(pf)(p.id);
    FourPut(id, number, vector, metadata, (p.id, (p.sequence, (p.vector, p.metadata))), pos, first,
            PutLe(p.sequence, 8), AlignedBytes(p.vector, pos + |first| + 8), MetadataBytes(pf, p.metadata));
  }

  lemma StoredLayout(pf: Platform, dimension: nat, p: StoredPoint, pos: nat)
    ensures PartsOfStored(pf, dimension).put(EncodeStored(p), pos) == StoredBytes(pf, p, pos)
  {
    TextLayout(pf, p.id);
    LeWrites(8, p.sequence);
    MetadataLayout(pf, p.metadata);
    VectorLayout(dimension, p.vector, pos + |TextBytes(pf)(p.id)| + 8);
    StoredPartsLayout(pf, p, pos, Text(pf), Le(8), Aligned(Times(dimension, Component())), MetadataCodec(pf));
  }

  lemma ConvertPut<A, B>(inner: Codec<A>, decode: A -> Option<B>, encode: B -> A, x: B, pos: nat)
    ensures Convert(inner, decode, encode).put(x, pos) == inner.put(encode(x), pos)
  {
  }

  /** `write` does what the codec does. */
  ghost predicate SameWriter<T(!new)>(c: Codec<T>, write: Writer<T>) {
    forall x: T, pos: nat {:trigger c.put(x, pos)} :: c.put(x, pos) == write(x, pos)
  }

  lemma StoredWriterIsSame(pf: Platform, dimension: nat)
    ensures SameWriter(StoredCodec(pf, dimension), StoredWriter(pf))
  {
    var c := StoredCodec(pf, dimension);
    forall p: StoredPoint, pos: nat ensures c.put(p, pos) == StoredWriter(pf)(p, pos) {
      StoredLayout(pf, dimension, p, pos);
      ConvertPut(PartsOfStored(pf, dimension), DecodeStored, EncodeStored, p, pos);
    }
  }

  lemma {:induction false} ManySame<T(!new)>(c: Codec<T>, write: Writer<T>, items: seq<T>, i: nat, pos: nat)
    requires i <= |items| && SameWriter(c, write)
    ensures PutMany(c.put, items, i, pos) == PutMany(write, items, i, pos)
    decreases |items| - i
  {
    if i < |items| { ManySame(c, write, items, i + 1, pos + |c.put(items[i], pos)|); }
  }

  /** Magic and version, metric, dimension. */
  function KindBytes(k: Kind): seq<byte> {
    [0x46, 0x56, 0x53, 0x47, 3] + (MetricByte(k.0) + PutLe(k.1, 8))
  }

  lemma KindLayout(k: Kind)
    ensures Writes(KindCodec(), k, KindBytes(k)) && |KindBytes(k)| == 14
  {
    var metric := MetricTag(k.0);
    OneByte(metric);
    LeWrites(1, metric);
    LeWrites(8, k.1);
    PairWrites(Le(1), Le(8), (metric, k.1), MetricByte(k.0), PutLe(k.1, 8));
    PairWrites(Fixed(SEGMENT_HEADER), Pair(Le(1), Le(8)), EncodeKind(k), SEGMENT_HEADER,
               MetricByte(k.0) + PutLe(k.1, 8));
    ConvertWrites(PartsOfKind(), DecodeKind, EncodeKind, k, KindBytes(k));
  }

  /** The number of points, and the points from position 27 on. */
  function StoredList(pf: Platform, points: seq<StoredPoint>): seq<byte> {
    PutLe(|points|, 4) + PutMany(StoredWriter(pf), points, 0, 27)
  }

  lemma StoredListLayout(pf: Platform, dimension: nat, points: seq<StoredPoint>)
    ensures Counted(MAX_ITEMS, StoredCodec(pf, dimension)).put(points, 23) == StoredList(pf, points)
  {
    CountedPut(MAX_ITEMS, StoredCodec(pf, dimension), points, 23);
    StoredWriterIsSame(pf, dimension);
    ManySame(StoredCodec(pf, dimension), StoredWriter(pf), points, 0, 27);
  }

  /** The sequence, and whether the segment is a delta. */
  function FlagBytes(s: SegmentFile): (b: seq<byte>)
    ensures |b| == 9
  {
    PutLe(s.sequence, 8) + [if s.full then 0 else 1]
  }

  function TombstoneBytes(pf: Platform, ids: seq<Id>): seq<byte> {
    PutLe(|ids|, 4) + Joined(TextBytes(pf), ids, 0)
  }

  /** Bytes behind their length. */
  function Measured(bytes: seq<byte>): seq<byte> { PutLe(|bytes|, 4) + bytes }

  function BodyBytes(pf: Platform, s: SegmentFile, graph: seq<byte>): seq<byte> {
    FlagBytes(s) + ((StoredList(pf, s.points) + TombstoneBytes(pf, s.tombstones)) + Measured(graph))
  }

  function SegmentBytes(pf: Platform, s: SegmentFile): seq<byte> {
    KindBytes((s.metric, s.dimension)) + BodyBytes(pf, s, GraphBytes(pf, s.graph))
  }

  lemma FlagLayout(s: SegmentFile)
    ensures Writes(Pair(Le(8), Convert(Le(1), DecodeFull, EncodeFull)), (s.sequence, s.full), FlagBytes(s))
  {
    OneByte(EncodeFull(s.full));
    LeWrites(8, s.sequence);
    LeWrites(1, EncodeFull(s.full));
    ConvertWrites(Le(1), DecodeFull, EncodeFull, s.full, [if s.full then 0 else 1]);
    PairWrites(Le(8), Convert(Le(1), DecodeFull, EncodeFull), (s.sequence, s.full),
               PutLe(s.sequence, 8), [if s.full then 0 else 1]);
  }

  lemma TombstonesLayout(pf: Platform, ids: seq<Id>)
    ensures Writes(Counted(MAX_ITEMS, Text(pf)), ids, TombstoneBytes(pf, ids))
  {
    forall j | 0 <= j < |ids| ensures Writes(Text(pf), ids[j], TextBytes(pf)(ids[j])) { TextLayout(pf, ids[j]); }
    CountedWrites(MAX_ITEMS, Text(pf), ids, TextBytes(pf));
  }

  lemma NestedLayout(pf: Platform, g: GraphFile)
    requires forall i :: 0 <= i < |g.nodes| ==> StoredVectorWritable(g.header, g.nodes[i].vector)
    ensures Writes(NestedGraph(pf), g, Measured(GraphBytes(pf, g)))
  {
    GraphLayout(pf, g);
    ConvertWrites(Blob(U32_LIMIT - 1), DecodeNested(pf), EncodeNested(pf), g, Measured(GraphBytes(pf, g)));
  }

  /** Four values, the second behind a position that the first decides. */
  lemma NestedPut<F, P, T, G>(
      flags: Codec<F>, points: Codec<P>, tombs: Codec<T>, graph: Codec<G>, x: (F, ((P, T), G)), pos: nat,
      f: seq<byte>, p: seq<byte>, t: seq<byte>, g: seq<byte>)
    requires Writes(flags, x.0, f) && Writes(tombs, x.1.0.1, t) && Writes(graph, x.1.1, g)
    requires points.put(x.1.0.0, pos + |f|) == p
    ensures Pair(flags, Pair(Pair(points, tombs), graph)).put(x, pos) == f + ((p + t) + g)
  {
    PairPut(points, tombs, x.1.0, pos + |f|, p, t);
    PairPut(Pair(points, tombs), graph, x.1, pos + |f|, p + t, g);
    PairPut(flags, Pair(Pair(points, tombs), graph), x, pos, f, (p + t) + g);
  }

  /** The list of points and the lists behind it, as long as each writes what it should. */
  lemma BodyLayout(
      pf: Platform, s: SegmentFile, flags: Codec<(nat, bool)>, points: Codec<seq<StoredPoint>>,
      tombs: Codec<seq<Id>>, nested: Codec<GraphFile>, graph: seq<byte>)
    requires Writes(flags, (s.sequence, s.full), FlagBytes(s))
    requires points.put(s.points, 23) == StoredList(pf, s.points)
    requires Writes(tombs, s.tombstones, TombstoneBytes(pf, s.tombstones))
    requires Writes(nested, s.graph, Measured(graph))
    ensures Pair(flags, Pair(Pair(points, tombs), nested)).put(EncodeSegmentParts(s).1, 14) == BodyBytes(pf, s, graph)
  {
    NestedPut(flags, points, tombs, nested, ((s.sequence, s.full), ((s.points, s.tombstones), s.graph)), 14,
              FlagBytes(s), StoredList(pf, s.points), TombstoneBytes(pf, s.tombstones), Measured(graph));
  }

  lemma DependentPut<A, B>(first: Codec<A>, rest: A -> Codec<B>, x: (A, B), pos: nat, a: seq<byte>, b: seq<byte>)
    requires first.put(x.0, pos) == a && rest(x.0).put(x.1, pos + |a|) == b
    ensures Dependent(first, rest).put(x, pos) == a + b
  {
  }

  lemma PartsLayout(pf: Platform, s: SegmentFile, graph: seq<byte>)
    requires Writes(NestedGraph(pf), s.graph, Measured(graph))
    ensures PartsOfSegment(pf).put(EncodeSegmentParts(s), 0)
      == KindBytes((s.metric, s.dimension)) + BodyBytes(pf, s, graph)
  {
    var x := EncodeSegmentParts(s);
    KindLayout(x.0);
    FlagLayout(s);
    StoredListLayout(pf, s.dimension, s.points);
    TombstonesLayout(pf, s.tombstones);
    BodyLayout(pf, s, Pair(Le(8), Convert(Le(1), DecodeFull, EncodeFull)),
               Counted(MAX_ITEMS, StoredCodec(pf, s.dimension)), Counted(MAX_ITEMS, Text(pf)), NestedGraph(pf), graph);
    DependentPut(KindCodec(), BodyCodec(pf), x, 0, KindBytes(x.0), BodyBytes(pf, s, graph));
  }

  /** `write_segment_file`, flat. */
  lemma SegmentLayout(pf: Platform, s: SegmentFile)
    requires forall i :: 0 <= i < |s.graph.nodes| ==> StoredVectorWritable(s.graph.header, s.graph.nodes[i].vector)
    ensures EncodeSegment(pf, s) == SegmentBytes(pf, s) + Crc(SegmentBytes(pf, s))
  {
    NestedLayout(pf, s.graph);
    PartsLayout(pf, s, GraphBytes(pf, s.graph));
    ConvertPut(PartsOfSegment(pf), DecodeSegmentParts, EncodeSegmentParts, s, 0);
  }
}
