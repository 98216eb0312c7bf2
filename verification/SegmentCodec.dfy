/**
 Segment files: points with aligned vectors, tombstones and the graph, sealed by
 a checksum over everything before it.
 */
module SegmentCodec {
  import opened Base
  import opened Bytes
  import opened Collections
  import opened Framing
  import opened WalCodec
  import opened GraphCodec

  const SEGMENT_HEADER: seq<byte> := [0x46, 0x56, 0x53, 0x47, 3]   // FVSG, version 3

  // ----- alignment -------------------------------------------------------

  /** Zero bytes after the padding byte at `pos`, so that what follows is aligned. */
  function Padding(pos: nat): nat { (4 - (pos + 1) % 4) % 4 }

  function Zeros(n: nat): seq<byte> { seq(n, i => 0) }

  /** Where the vector lies whose padding byte is at `pos`. */
  function VectorOffset(pos: nat): nat { pos + 1 + Padding(pos) }

  lemma VectorOffsetIsAligned(pos: nat)
    ensures VectorOffset(pos) % 4 == 0 && Padding(pos) <= 3
  {
    var rest := (pos + 1) % 4;
    assert pos + 1 == 4 * ((pos + 1) / 4) + rest;
    assert rest == 0 || VectorOffset(pos) == 4 * ((pos + 1) / 4 + 1);
  }

  /** The reader accepts any short padding of zeros, but insists on alignment. */
  function Aligned<T>(inner: Codec<T>): Codec<T> {
    Codec(
      (bytes: seq<byte>, pos: nat) =>
        var padding := Take(bytes, pos, 1);
        if padding.Err? then Err(padding.error)
        else
          var n := padding.value.value[0] as nat;
          if n > 3 || !Holds(bytes, pos + 1, Zeros(n)) || (pos + 1 + n) % 4 != 0 then Err(CorruptStorage)
          else inner.read(bytes, pos + 1 + n),
      (x: T, pos: nat) => [(Padding(pos) % 256) as byte] + (Zeros(Padding(pos)) + inner.put(x, VectorOffset(pos))))
  }

  /** The reader finds an aligned value where it was put, at an offset divisible by four. */
  lemma AlignedReads<T>(inner: Codec<T>, bytes: seq<byte>, pos: nat, x: T)
    requires Holds(bytes, pos, Aligned(inner).put(x, pos))
    ensures Aligned(inner).read(bytes, pos) == inner.read(bytes, VectorOffset(pos))
    ensures VectorOffset(pos) % 4 == 0 && Holds(bytes, VectorOffset(pos), inner.put(x, VectorOffset(pos)))
  {
    VectorOffsetIsAligned(pos);
    var n := Padding(pos);
    var body := inner.put(x, VectorOffset(pos));
    HoldsSplit(bytes, pos, [(n % 256) as byte], Zeros(n) + body);
    assert Take(bytes, pos, 1).value.value[0] == n as byte;
    HoldsSplit(bytes, pos + 1, Zeros(n), body);
  }

  /** An aligned value is read back, and left right behind its end. */
  lemma AlignedHolds<T>(inner: Codec<T>, bytes: seq<byte>, pos: nat, x: T)
    requires Inverts(inner, x) && Holds(bytes, pos, Aligned(inner).put(x, pos))
    ensures Aligned(inner).read(bytes, pos) == Ok(Parsed(x, pos + |Aligned(inner).put(x, pos)|))
    ensures VectorOffset(pos) % 4 == 0 && Holds(bytes, VectorOffset(pos), inner.put(x, VectorOffset(pos)))
  {
    AlignedReads(inner, bytes, pos, x);
    var body := inner.put(x, VectorOffset(pos));
    assert inner.read(bytes, VectorOffset(pos)) == Ok(Parsed(x, VectorOffset(pos) + |body|));
  }

  lemma AlignedInverts<T>(inner: Codec<T>, x: T)
    requires Inverts(inner, x)
    ensures Inverts(Aligned(inner), x)
  {
    var c := Aligned(inner);
    forall bytes: seq<byte>, pos: nat | Holds(bytes, pos, c.put(x, pos))
      ensures c.read(bytes, pos) == Ok(Parsed(x, pos + |c.put(x, pos)|))
    {
      AlignedHolds(inner, bytes, pos, x);
    }
  }

  // ----- points ----------------------------------------------------------

  type StoredParts = (Id, (nat, (Vector, Filters.Metadata)))

  function DecodeStored(x: StoredParts): Option<StoredPoint> {
    Some(StoredPoint(x.0, x.1.1.0, x.1.1.1, x.1.0))
  }

  function EncodeStored(p: StoredPoint): StoredParts { (p.id, (p.sequence, (p.vector, p.metadata))) }

  function PartsOfStored(pf: Platform, dimension: nat): Codec<StoredParts> {
    Pair(Text(pf), Pair(Le(8), Pair(Aligned(Times(dimension, Component())), MetadataCodec(pf))))
  }

  function StoredCodec(pf: Platform, dimension: nat): Codec<StoredPoint> {
    Convert(PartsOfStored(pf, dimension), DecodeStored, EncodeStored)
  }

  ghost predicate StoredWritable(pf: Platform, dimension: nat, p: StoredPoint) {
    && TextWritable(pf, p.id) && MetadataWritable(pf, p.metadata) && p.sequence < U64_LIMIT
    && |p.vector| == dimension && VectorWritable(p.vector)
  }

  ghost predicate StoredWithin(pf: Platform, p: StoredPoint) {
    TextWithin(pf, p.id) && FiniteVector(p.vector) && MetadataWithin(pf, p.metadata)
  }

  lemma AlignedDecides<T>(inner: Codec<T>, x: T, ok: bool)
    requires Decides(inner, x, ok)
    ensures Decides(Aligned(inner), x, ok)
  {
    if ok {
      AlignedInverts(inner, x);
    } else {
      var c := Aligned(inner);
      forall bytes: seq<byte>, pos: nat | Holds(bytes, pos, c.put(x, pos)) ensures c.read(bytes, pos).Err? {
        AlignedReads(inner, bytes, pos, x);
      }
    }
  }

  lemma StoredDecides(pf: Platform, dimension: nat, p: StoredPoint)
    requires StoredWritable(pf, dimension, p)
    ensures Decides(StoredCodec(pf, dimension), p, StoredWithin(pf, p))
  {
    var vector, metadata := Aligned(Times(dimension, Component())), MetadataCodec(pf);
    var finite, small := FiniteVector(p.vector), MetadataWithin(pf, p.metadata);
    Limits();
    TextDecides(pf, p.id);
    LeInverts(p.sequence, 8);
    VectorDecides(p.vector);
    AlignedDecides(Times(dimension, Component()), p.vector, finite);
    MetadataDecides(pf, p.metadata);
    PairDecides(vector, metadata, (p.vector, p.metadata), finite, small);
    PairDecides(Le(8), Pair(vector, metadata), (p.sequence, (p.vector, p.metadata)), true, finite && small);
    PairDecides(Text(pf), Pair(Le(8), Pair(vector, metadata)), EncodeStored(p), TextWithin(pf, p.id), finite && small);
    ConvertDecides(PartsOfStored(pf, dimension), DecodeStored, EncodeStored, p, StoredWithin(pf, p));
  }

  // ----- segments --------------------------------------------------------

  datatype SegmentFile = SegmentFile(
    metric: Metric, dimension: nat, sequence: nat, full: bool,
    points: seq<StoredPoint>, tombstones: seq<Id>, graph: GraphFile)

  type ConfigParts = ((), (nat, nat))
  type Kind = (Metric, nat)

  function DecodeKind(x: ConfigParts): Option<Kind> {
    if ParseMetric(x.1.0).None? || x.1.1 == 0 || x.1.1 > MAX_ITEMS then None
    else Some((ParseMetric(x.1.0).value, x.1.1))
  }

  function EncodeKind(k: Kind): ConfigParts { ((), (MetricTag(k.0), k.1)) }

  function PartsOfKind(): Codec<ConfigParts> { Pair(Fixed(SEGMENT_HEADER), Pair(Le(1), Le(8))) }

  function KindCodec(): Codec<Kind> { Convert(PartsOfKind(), DecodeKind, EncodeKind) }

  lemma KindDecides(k: Kind)
    requires 0 < k.1 < U64_LIMIT
    ensures Decides(KindCodec(), k, k.1 <= MAX_ITEMS)
  {
    Limits();
    FixedInverts(SEGMENT_HEADER);
    LeInverts(MetricTag(k.0), 1);
    LeInverts(k.1, 8);
    PairInverts(Le(1), Le(8), (MetricTag(k.0), k.1));
    PairInverts(Fixed(SEGMENT_HEADER), Pair(Le(1), Le(8)), EncodeKind(k));
    ConvertDecides(PartsOfKind(), DecodeKind, EncodeKind, k, true);
  }

  function DecodeFull(n: nat): Option<bool> { if n == 0 then Some(true) else if n == 1 then Some(false) else None }
  function EncodeFull(full: bool): nat { if full then 0 else 1 }

  function DecodeNested(pf: Platform): seq<byte> -> Option<GraphFile> {
    (b: seq<byte>) => var g := DecodeGraph(pf, b); if g.Ok? then Some(g.value) else None
  }

  function EncodeNested(pf: Platform): GraphFile -> seq<byte> { (g: GraphFile) => EncodeGraph(pf, g) }

  function NestedGraph(pf: Platform): Codec<GraphFile> {
    Convert(Blob(U32_LIMIT - 1), DecodeNested(pf), EncodeNested(pf))
  }

  type Body = ((nat, bool), ((seq<StoredPoint>, seq<Id>), GraphFile))

  function BodyCodec(pf: Platform): Kind -> Codec<Body> {
    (k: Kind) =>
      Pair(Pair(Le(8), Convert(Le(1), DecodeFull, EncodeFull)),
        Pair(Pair(Counted(MAX_ITEMS, StoredCodec(pf, k.1)), Counted(MAX_ITEMS, Text(pf))), NestedGraph(pf)))
  }

  /** What is checked once everything is read. */
  predicate SegmentConsistent(s: SegmentFile) {
    && (forall i, j :: 0 <= i < j < |s.tombstones| ==> s.tombstones[i] != s.tombstones[j])
    && "" !in s.tombstones && (s.full ==> s.tombstones == [])
    && s.graph.header.dimension == s.dimension && s.graph.header.metric == s.metric
    && |s.graph.nodes| <= |s.points|
    && (set i | 0 <= i < |s.graph.nodes| :: s.graph.nodes[i].id) == (set i | 0 <= i < |s.points| :: s.points[i].id)
  }

  type SegmentParts = (Kind, Body)

  function DecodeSegmentParts(x: SegmentParts): Option<SegmentFile> {
    var s := SegmentFile(x.0.0, x.0.1, x.1.0.0, x.1.0.1, x.1.1.0.0, x.1.1.0.1, x.1.1.1);
    if SegmentConsistent(s) then Some(s) else None
  }

  function EncodeSegmentParts(s: SegmentFile): SegmentParts {
    ((s.metric, s.dimension), ((s.sequence, s.full), ((s.points, s.tombstones), s.graph)))
  }

  function PartsOfSegment(pf: Platform): Codec<SegmentParts> { Dependent(KindCodec(), BodyCodec(pf)) }

  function ContentCodec(pf: Platform): Codec<SegmentFile> {
    Convert(PartsOfSegment(pf), DecodeSegmentParts, EncodeSegmentParts)
  }

  /** A segment that can be written: lengths fit their fields and the parts belong together. */
  ghost predicate SegmentWritable(pf: Platform, s: SegmentFile) {
    && 0 < s.dimension < U64_LIMIT && s.sequence < U64_LIMIT
    && |s.points| < U32_LIMIT && (forall i :: 0 <= i < |s.points| ==> StoredWritable(pf, s.dimension, s.points[i]))
    && |s.tombstones| < U32_LIMIT && (forall i :: 0 <= i < |s.tombstones| ==> TextWritable(pf, s.tombstones[i]))
    && GraphWritable(pf, s.graph) && |EncodeGraph(pf, s.graph)| < U32_LIMIT
    && SegmentConsistent(s)
  }

  ghost predicate PointsWithin(pf: Platform, points: seq<StoredPoint>) {
    |points| <= 1_000_000 && forall i :: 0 <= i < |points| ==> StoredWithin(pf, points[i])
  }

  ghost predicate TombstonesWithin(pf: Platform, ids: seq<Id>) {
    |ids| <= 1_000_000 && forall i :: 0 <= i < |ids| ==> TextWithin(pf, ids[i])
  }

  /** The limits of the reader. */
  ghost predicate SegmentWithin(pf: Platform, s: SegmentFile) {
    && s.dimension <= 1_000_000 && PointsWithin(pf, s.points) && TombstonesWithin(pf, s.tombstones)
    && GraphWithin(s.graph)
  }

  lemma PointsInvert(pf: Platform, dimension: nat, points: seq<StoredPoint>)
    requires forall i :: 0 <= i < |points| ==> StoredWritable(pf, dimension, points[i])
    requires forall i :: 0 <= i < |points| ==> StoredWithin(pf, points[i])
    ensures InvertsAll(StoredCodec(pf, dimension), points)
  {
    forall i | 0 <= i < |points| ensures Inverts(StoredCodec(pf, dimension), points[i]) {
      StoredDecides(pf, dimension, points[i]);
    }
  }

  lemma PointsDecide(pf: Platform, dimension: nat, points: seq<StoredPoint>)
    requires |points| < U32_LIMIT && forall i :: 0 <= i < |points| ==> StoredWritable(pf, dimension, points[i])
    ensures Decides(Counted(MAX_ITEMS, StoredCodec(pf, dimension)), points, PointsWithin(pf, points))
  {
    var one, ok := StoredCodec(pf, dimension), (p: StoredPoint) => StoredWithin(pf, p);
    forall i | 0 <= i < |points| ensures Decides(one, points[i], ok(points[i])) {
      StoredDecides(pf, dimension, points[i]);
    }
    CountedDecides(MAX_ITEMS, one, points, ok);
  }

  lemma TombstonesDecide(pf: Platform, ids: seq<Id>)
    requires |ids| < U32_LIMIT && forall i :: 0 <= i < |ids| ==> TextWritable(pf, ids[i])
    ensures Decides(Counted(MAX_ITEMS, Text(pf)), ids, TombstonesWithin(pf, ids))
  {
    var ok := (id: Id) => TextWithin(pf, id);
    forall i | 0 <= i < |ids| ensures Decides(Text(pf), ids[i], ok(ids[i])) { TextDecides(pf, ids[i]); }
    CountedDecides(MAX_ITEMS, Text(pf), ids, ok);
  }

  lemma NumbersInvert(numbers: (nat, bool))
    requires numbers.0 < U64_LIMIT
    ensures Inverts(Pair(Le(8), Convert(Le(1), DecodeFull, EncodeFull)), numbers)
  {
    Limits();
    LeInverts(numbers.0, 8);
    LeInverts(EncodeFull(numbers.1), 1);
    ConvertInverts(Le(1), DecodeFull, EncodeFull, numbers.1);
    PairInverts(Le(8), Convert(Le(1), DecodeFull, EncodeFull), numbers);
  }

  lemma BodyDecides(pf: Platform, s: SegmentFile)
    requires SegmentWritable(pf, s)
    ensures Decides(BodyCodec(pf)((s.metric, s.dimension)), EncodeSegmentParts(s).1,
                    PointsWithin(pf, s.points) && TombstonesWithin(pf, s.tombstones) && GraphWithin(s.graph))
  {
    var body, one := EncodeSegmentParts(s).1, StoredCodec(pf, s.dimension);
    var numbers := Pair(Le(8), Convert(Le(1), DecodeFull, EncodeFull));
    var lists := Pair(Counted(MAX_ITEMS, one), Counted(MAX_ITEMS, Text(pf)));
    var a, b := PointsWithin(pf, s.points), TombstonesWithin(pf, s.tombstones);
    NumbersInvert(body.0);
    PointsDecide(pf, s.dimension, s.points);
    TombstonesDecide(pf, s.tombstones);
    PairDecides(Counted(MAX_ITEMS, one), Counted(MAX_ITEMS, Text(pf)), body.1.0, a, b);
    NestedDecides(pf, s.graph);
    PairDecides(lists, NestedGraph(pf), body.1, a && b, GraphWithin(s.graph));
    PairDecides(numbers, Pair(lists, NestedGraph(pf)), body, true, a && b && GraphWithin(s.graph));
  }

  lemma NestedDecides(pf: Platform, g: GraphFile)
    requires GraphWritable(pf, g) && |EncodeGraph(pf, g)| < U32_LIMIT
    ensures Decides(NestedGraph(pf), g, GraphWithin(g))
  {
    GraphRoundTripIff(pf, g);
    BlobInverts(U32_LIMIT - 1, EncodeGraph(pf, g));
    ConvertDecides(Blob(U32_LIMIT - 1), DecodeNested(pf), EncodeNested(pf), g, true);
  }

  lemma ContentDecides(pf: Platform, s: SegmentFile)
    requires SegmentWritable(pf, s)
    ensures Decides(ContentCodec(pf), s, SegmentWithin(pf, s))
  {
    var rest := PointsWithin(pf, s.points) && TombstonesWithin(pf, s.tombstones) && GraphWithin(s.graph);
    KindDecides((s.metric, s.dimension));
    BodyDecides(pf, s);
    DependentDecides(KindCodec(), BodyCodec(pf), EncodeSegmentParts(s), s.dimension <= MAX_ITEMS, rest);
    PartsRebuild(s);
    ConvertDecides(PartsOfSegment(pf), DecodeSegmentParts, EncodeSegmentParts, s, SegmentWithin(pf, s));
  }

  lemma PartsRebuild(s: SegmentFile)
    requires SegmentConsistent(s)
    ensures DecodeSegmentParts(EncodeSegmentParts(s)) == Some(s)
  {
  }

  // ----- files -----------------------------------------------------------

  /** A sealed file: content followed by its checksum. */
  function Seal(sum: Payload -> Sum, content: seq<byte>): seq<byte> { content + sum(content) }

  /** Reading a sealed file from its first byte to the checksum. */
  function Unseal<T>(c: Codec<T>, sum: Payload -> Sum, minimum: nat, bytes: seq<byte>): Result<T> {
    if |bytes| < minimum || |bytes| < 4 then Err(CorruptStorage)
    else
      var content := bytes[..|bytes| - 4];
      if sum(content) != bytes[|bytes| - 4..] then Err(CorruptStorage)
      else
        var x := c.read(content, 0);
        if x.Err? then Err(x.error)
        else if x.value.next != |content| then Err(CorruptStorage)
        else Ok(x.value.value)
  }

  lemma SealedDecides<T>(c: Codec<T>, sum: Payload -> Sum, minimum: nat, x: T, ok: bool)
    requires Decides(c, x, ok) && |Seal(sum, c.put(x, 0))| >= minimum
    ensures var found := Unseal(c, sum, minimum, Seal(sum, c.put(x, 0)));
      if ok then found == Ok(x) else found.Err?
  {
    var content := c.put(x, 0);
    var bytes := Seal(sum, content);
    assert bytes[..|bytes| - 4] == content && bytes[|bytes| - 4..] == sum(content);
    assert content[0..0 + |content|] == content;
    assert Holds(content, 0, c.put(x, 0));
    assert ok ==> c.read(content, 0) == Ok(Parsed(x, |content|));
    assert !ok ==> c.read(content, 0).Err?;
  }

  lemma DamageIsRefused<T>(c: Codec<T>, sum: Payload -> Sum, minimum: nat, written: seq<byte>, found: seq<byte>)
    requires sum(found) != sum(written)
    ensures Unseal(c, sum, minimum, found + sum(written)) == Err(CorruptStorage)
  {
    var bytes := found + sum(written);
    assert bytes[..|bytes| - 4] == found && bytes[|bytes| - 4..] == sum(written);
  }

  /** `write_segment_file` and `decode_segment_inner`. */
  function EncodeSegment(pf: Platform, s: SegmentFile): seq<byte> { Seal(Crc, ContentCodec(pf).put(s, 0)) }

  function DecodeSegment(pf: Platform, bytes: seq<byte>): Result<SegmentFile> {
    Unseal(ContentCodec(pf), Crc, 30, bytes)
  }

  // ----- segments keep their content -------------------------------------

  ghost predicate AtLeast<T>(c: Codec<T>, x: T, n: nat) {
    forall pos: nat {:trigger c.put(x, pos)} :: |c.put(x, pos)| >= n
  }

  lemma PairAtLeast<A, B>(first: Codec<A>, second: Codec<B>, x: (A, B), n: nat)
    requires AtLeast(second, x.1, n)
    ensures AtLeast(Pair(first, second), x, n)
  {
  }

  lemma DependentAtLeast<A, B>(first: Codec<A>, rest: A -> Codec<B>, x: (A, B), n: nat)
    requires AtLeast(rest(x.0), x.1, n)
    ensures AtLeast(Dependent(first, rest), x, n)
  {
  }

  lemma NestedAtLeast(pf: Platform, g: GraphFile)
    requires GraphWritable(pf, g)
    ensures AtLeast(NestedGraph(pf), g, 39)
  {
    GraphLength(pf, g);
    BlobTakes(U32_LIMIT - 1, EncodeGraph(pf, g));
    ConvertTakes(Blob(U32_LIMIT - 1), DecodeNested(pf), EncodeNested(pf), g, 4 + |EncodeGraph(pf, g)|);
  }

  lemma ContentAtLeast(pf: Platform, s: SegmentFile)
    requires SegmentWritable(pf, s)
    ensures AtLeast(ContentCodec(pf), s, 39)
  {
    var x, k := EncodeSegmentParts(s), (s.metric, s.dimension);
    var numbers := Pair(Le(8), Convert(Le(1), DecodeFull, EncodeFull));
    var lists := Pair(Counted(MAX_ITEMS, StoredCodec(pf, s.dimension)), Counted(MAX_ITEMS, Text(pf)));
    NestedAtLeast(pf, s.graph);
    PairAtLeast(lists, NestedGraph(pf), x.1.1, 39);
    PairAtLeast(numbers, Pair(lists, NestedGraph(pf)), x.1, 39);
    DependentAtLeast(KindCodec(), BodyCodec(pf), x, 39);
  }

  /**
   A written segment decodes to the same points, tombstones and graph if and only if it is
   within the limits of the reader; otherwise the reader refuses it.
   */
  lemma SegmentRoundTripIff(pf: Platform, s: SegmentFile)
    requires SegmentWritable(pf, s)
    ensures var found := DecodeSegment(pf, EncodeSegment(pf, s));
      if SegmentWithin(pf, s) then found == Ok(s) else found.Err?
  {
    ContentDecides(pf, s);
    ContentAtLeast(pf, s);
    assert |ContentCodec(pf).put(s, 0)| >= 39;
    SealedDecides(ContentCodec(pf), Crc, 30, s, SegmentWithin(pf, s));
  }

  /** A segment whose content changed within four consecutive bytes is refused. */
  lemma SegmentDamageIsRefused(pf: Platform, before: seq<byte>, v: seq<byte>, w: seq<byte>, after: seq<byte>)
    requires |v| == |w| <= 4 && v != w
    ensures DecodeSegment(pf, before + w + after + Crc(before + v + after)) == Err(CorruptStorage)
  {
    CrcDetects(before, v, w, after);
    DamageIsRefused(ContentCodec(pf), Crc, 30, before + v + after, before + w + after);
  }

  // ----- every vector is aligned -----------------------------------------

  /** Where the first point record starts. */
  const POINTS_OFFSET: nat := 27

  /** The position at which the decoding loop reaches item `k`. */
  function ItemStart<T>(put: Writer<T>, items: seq<T>, i: nat, k: nat, pos: nat): nat
    requires i <= k <= |items|
    decreases k - i
  {
    if i == k then pos else ItemStart(put, items, i + 1, k, pos + |put(items[i], pos)|)
  }

  lemma {:induction false} ItemIsReached<T>(c: Codec<T>, bytes: seq<byte>, items: seq<T>, i: nat, k: nat, pos: nat)
    requires i <= k < |items| && InvertsAll(c, items) && Holds(bytes, pos, PutMany(c.put, items, i, pos))
    ensures var at := ItemStart(c.put, items, i, k, pos);
      && ReadMany(c.read, bytes, k - i, pos, items[..i]) == Ok(Parsed(items[..k], at))
      && Holds(bytes, at, c.put(items[k], at))
    decreases k - i
  {
    var head := c.put(items[i], pos);
    HoldsSplit(bytes, pos, head, PutMany(c.put, items, i + 1, pos + |head|));
    if i < k {
      assert Inverts(c, items[i]);
      assert c.read(bytes, pos) == Ok(Parsed(items[i], pos + |head|));
      assert items[..i] + [items[i]] == items[..i + 1];
      ItemIsReached(c, bytes, items, i + 1, k, pos + |head|);
    }
  }

  /** A list written at `pos`. */
  ghost predicate ListAt<T>(c: Codec<T>, bytes: seq<byte>, items: seq<T>, pos: nat) {
    Holds(bytes, pos, PutMany(c.put, items, 0, pos))
  }

  /** Having read `k` items from `pos` on, the decoder stands at `at`, where item `k` was written. */
  ghost predicate Reaches<T>(c: Codec<T>, bytes: seq<byte>, items: seq<T>, k: nat, pos: nat, at: nat)
    requires k < |items|
  {
    && ReadMany(c.read, bytes, k, pos, []) == Ok(Parsed(items[..k], at))
    && Holds(bytes, at, c.put(items[k], at))
  }

  lemma ListIsReached<T>(c: Codec<T>, bytes: seq<byte>, items: seq<T>, k: nat, pos: nat)
    requires k < |items| && InvertsAll(c, items) && ListAt(c, bytes, items, pos)
    ensures Reaches(c, bytes, items, k, pos, ItemStart(c.put, items, 0, k, pos))
  {
    assert items[..0] == [];
    ItemIsReached(c, bytes, items, 0, k, pos);
  }

  lemma KindLength(k: Kind)
    ensures Takes(KindCodec(), k, 14)
  {
    FixedTakes(SEGMENT_HEADER);
    LeTakes(MetricTag(k.0), 1);
    LeTakes(k.1, 8);
    PairTakes(Le(1), Le(8), (MetricTag(k.0), k.1), 1, 8);
    PairTakes(Fixed(SEGMENT_HEADER), Pair(Le(1), Le(8)), EncodeKind(k), 5, 9);
    ConvertTakes(PartsOfKind(), DecodeKind, EncodeKind, k, 14);
  }

  lemma NumbersLength(numbers: (nat, bool))
    ensures Takes(Pair(Le(8), Convert(Le(1), DecodeFull, EncodeFull)), numbers, 9)
  {
    LeTakes(numbers.0, 8);
    LeTakes(EncodeFull(numbers.1), 1);
    ConvertTakes(Le(1), DecodeFull, EncodeFull, numbers.1, 1);
    PairTakes(Le(8), Convert(Le(1), DecodeFull, EncodeFull), numbers, 8, 1);
  }

  lemma FirstHolds<A, B>(first: Codec<A>, second: Codec<B>, x: (A, B), bytes: seq<byte>, pos: nat)
    requires Holds(bytes, pos, Pair(first, second).put(x, pos))
    ensures Holds(bytes, pos, first.put(x.0, pos))
    ensures var next := pos + |first.put(x.0, pos)|; Holds(bytes, next, second.put(x.1, next))
  {
    HoldsSplit(bytes, pos, first.put(x.0, pos), second.put(x.1, pos + |first.put(x.0, pos)|));
  }

  lemma ThirdHolds<A, B, C, D, E>(
      first: Codec<A>, rest: A -> Codec<(B, ((C, D), E))>, b: Codec<B>, c: Codec<C>, d: Codec<D>, e: Codec<E>,
      x: (A, (B, ((C, D), E))), m: nat, n: nat, bytes: seq<byte>)
    requires rest(x.0) == Pair(b, Pair(Pair(c, d), e)) && Takes(first, x.0, m) && Takes(b, x.1.0, n)
    requires Holds(bytes, 0, Dependent(first, rest).put(x, 0))
    ensures Holds(bytes, m + n, c.put(x.1.1.0.0, m + n))
  {
    HoldsSplit(bytes, 0, first.put(x.0, 0), rest(x.0).put(x.1, |first.put(x.0, 0)|));
    FirstHolds(b, Pair(Pair(c, d), e), x.1, bytes, m);
    FirstHolds(Pair(c, d), e, x.1.1, bytes, m + n);
    FirstHolds(c, d, x.1.1.0, bytes, m + n);
  }

  /** The points of a segment file start at `POINTS_OFFSET`. */
  lemma PointsStart(pf: Platform, s: SegmentFile, bytes: seq<byte>)
    requires Holds(bytes, 0, ContentCodec(pf).put(s, 0))
    ensures Holds(bytes, POINTS_OFFSET, PutMany(StoredCodec(pf, s.dimension).put, s.points, 0, POINTS_OFFSET))
  {
    var x, k, one := EncodeSegmentParts(s), (s.metric, s.dimension), StoredCodec(pf, s.dimension);
    var numbers := Pair(Le(8), Convert(Le(1), DecodeFull, EncodeFull));
    var points, tombstones := Counted(MAX_ITEMS, one), Counted(MAX_ITEMS, Text(pf));
    KindLength(k);
    NumbersLength(x.1.0);
    ThirdHolds(KindCodec(), BodyCodec(pf), numbers, points, tombstones, NestedGraph(pf), x, 14, 9, bytes);
    CountedHolds(MAX_ITEMS, one, s.points, bytes, 23);
  }

  lemma CountedHolds<T>(limit: nat, c: Codec<T>, items: seq<T>, bytes: seq<byte>, pos: nat)
    requires Holds(bytes, pos, Counted(limit, c).put(items, pos))
    ensures Holds(bytes, pos + 4, PutMany(c.put, items, 0, pos + 4))
  {
    HoldsSplit(bytes, pos, PutLe(|items|, 4), PutMany(c.put, items, 0, pos + 4));
  }

  /** Where the vector of a point lies whose record starts at `start`. */
  function VectorAt(pf: Platform, p: StoredPoint, start: nat): nat {
    VectorOffset(start + |Text(pf).put(p.id, start)| + 8)
  }

  lemma VectorPartHolds<A, B, C>(
      text: Codec<A>, third: Codec<B>, rest: Codec<C>, x: (A, (nat, (B, C))), bytes: seq<byte>, start: nat)
    requires Holds(bytes, start, Pair(text, Pair(Le(8), Pair(third, rest))).put(x, start))
    ensures var at := start + |text.put(x.0, start)| + 8;
      Holds(bytes, at, third.put(x.1.1.0, at))
  {
    FirstHolds(text, Pair(Le(8), Pair(third, rest)), x, bytes, start);
    var next := start + |text.put(x.0, start)|;
    FirstHolds(Le(8), Pair(third, rest), x.1, bytes, next);
    FirstHolds(third, rest, x.1.1, bytes, next + 8);
  }

  lemma AlignedPart<A, B, C>(
      text: Codec<A>, inner: Codec<B>, rest: Codec<C>, x: (A, (nat, (B, C))), bytes: seq<byte>, start: nat)
    requires Inverts(inner, x.1.1.0)
    requires Holds(bytes, start, Pair(text, Pair(Le(8), Pair(Aligned(inner), rest))).put(x, start))
    ensures var o := VectorOffset(start + |text.put(x.0, start)| + 8);
      o % 4 == 0 && inner.read(bytes, o) == Ok(Parsed(x.1.1.0, o + |inner.put(x.1.1.0, o)|))
  {
    VectorPartHolds(text, Aligned(inner), rest, x, bytes, start);
    AlignedHolds(inner, bytes, start + |text.put(x.0, start)| + 8, x.1.1.0);
  }

  /** The decoder reads `v` from the aligned offset `o`. */
  ghost predicate AlignedAt(bytes: seq<byte>, o: nat, v: Vector) {
    var inner := Times(|v|, Component());
    o % 4 == 0 && inner.read(bytes, o) == Ok(Parsed(v, o + |inner.put(v, o)|))
  }

  /** Point `p` was written at `start`. */
  ghost predicate StoredAt(pf: Platform, dimension: nat, bytes: seq<byte>, p: StoredPoint, start: nat) {
    Holds(bytes, start, StoredCodec(pf, dimension).put(p, start))
  }

  lemma StoredVectorIsAligned(pf: Platform, dimension: nat, p: StoredPoint, bytes: seq<byte>, start: nat)
    requires StoredWritable(pf, dimension, p) && FiniteVector(p.vector) && StoredAt(pf, dimension, bytes, p, start)
    ensures AlignedAt(bytes, VectorAt(pf, p, start), p.vector)
  {
    VectorDecides(p.vector);
    AlignedPart(Text(pf), Times(dimension, Component()), MetadataCodec(pf), EncodeStored(p), bytes, start);
  }

  /** Where point `k` of a segment file starts. */
  ghost function PointStart(pf: Platform, s: SegmentFile, k: nat): nat
    requires k < |s.points|
  {
    ItemStart(StoredCodec(pf, s.dimension).put, s.points, 0, k, POINTS_OFFSET)
  }

  /** Having read `k` points, the decoder stands where point `k` was written. */
  lemma PointIsReached(pf: Platform, s: SegmentFile, k: nat)
    requires SegmentWritable(pf, s) && SegmentWithin(pf, s) && k < |s.points|
    ensures Reaches(
      StoredCodec(pf, s.dimension), EncodeSegment(pf, s), s.points, k, POINTS_OFFSET, PointStart(pf, s, k))
  {
    PointsAreHeld(pf, s);
    PointsInvert(pf, s.dimension, s.points);
    ListIsReached(StoredCodec(pf, s.dimension), EncodeSegment(pf, s), s.points, k, POINTS_OFFSET);
  }

  lemma PointsAreHeld(pf: Platform, s: SegmentFile)
    ensures ListAt(StoredCodec(pf, s.dimension), EncodeSegment(pf, s), s.points, POINTS_OFFSET)
  {
    var bytes, content := EncodeSegment(pf, s), ContentCodec(pf).put(s, 0);
    assert bytes[0..0 + |content|] == content;
    PointsStart(pf, s, bytes);
  }

  /** The vector of point `k` lies, and is read, at an offset divisible by four. */
  lemma VectorsAreAligned(pf: Platform, s: SegmentFile, k: nat)
    requires SegmentWritable(pf, s) && SegmentWithin(pf, s) && k < |s.points|
    ensures AlignedAt(EncodeSegment(pf, s), VectorAt(pf, s.points[k], PointStart(pf, s, k)), s.points[k].vector)
  {
    PointIsReached(pf, s, k);
    StoredVectorIsAligned(pf, s.dimension, s.points[k], EncodeSegment(pf, s), PointStart(pf, s, k));
  }
}
