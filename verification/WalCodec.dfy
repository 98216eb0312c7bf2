/**
 The payloads of the write-ahead log. The encoder checks that lengths fit 32 bits
 and that floats are finite; the decoder enforces smaller limits of its own.
 Decoding gives the batch back if and only if the batch is within those limits,
 and then recovery from any byte prefix of the log is the frame replay that the
 durability engine is built on.
 */
module WalCodec {
  import opened Base
  import opened Bytes
  import opened Filters
  import opened Collections
  import opened Durability
  import opened Framing

  const MAX_ITEMS: nat := 1_000_000

  /**
   What the language provides: UTF-8 with its check, the bit patterns of
   doubles, and the iteration order of a sorted map.
   */
  datatype Platform = Platform(
    utf8: string -> seq<byte>, text: seq<byte> -> Option<string>,
    bits: F64 -> nat, float: nat -> F64,
    keys: Metadata -> seq<string>)

  // ----- text and vector components --------------------------------------

  function Text(pf: Platform): Codec<string> {
    Convert(Blob(MAX_ITEMS), pf.text, pf.utf8)
  }

  /** What the encoder accepts; the platform decodes its own UTF-8. */
  predicate TextWritable(pf: Platform, s: string) {
    |pf.utf8(s)| < U32_LIMIT && pf.text(pf.utf8(s)) == Some(s)
  }

  /** What the decoder accepts. */
  predicate TextWithin(pf: Platform, s: string) { |pf.utf8(s)| <= 1_000_000 }

  lemma TextDecides(pf: Platform, s: string)
    requires TextWritable(pf, s)
    ensures Decides(Text(pf), s, TextWithin(pf, s))
  {
    BlobDecides(MAX_ITEMS, pf.utf8(s));
    ConvertDecides(Blob(MAX_ITEMS), pf.text, pf.utf8, s, TextWithin(pf, s));
  }

  /** A component is its 32-bit pattern; it is finite unless the exponent is all ones. */
  predicate FiniteComponent(c: int) {
    0 <= c < U32_LIMIT && c / 0x80_0000 % 256 != 255
  }

  function DecodeComponent(n: nat): Option<int> {
    if FiniteComponent(n) then Some(n) else None
  }

  function EncodeComponent(c: int): nat { c % U32_LIMIT }

  function Component(): Codec<int> {
    Convert(Le(4), DecodeComponent, EncodeComponent)
  }

  /** Any single-precision numbers. */
  predicate VectorWritable(v: Vector) {
    forall i :: 0 <= i < |v| ==> 0 <= v[i] < U32_LIMIT
  }

  /** The reader refuses infinities and NaN. */
  predicate FiniteVector(v: Vector) {
    forall i :: 0 <= i < |v| ==> FiniteComponent(v[i])
  }

  lemma ComponentsDecide(v: Vector)
    requires VectorWritable(v)
    ensures DecidesAll(Component(), v, FiniteComponent)
  {
    forall i | 0 <= i < |v| ensures Decides(Component(), v[i], FiniteComponent(v[i])) {
      Limits();
      assert EncodeComponent(v[i]) == v[i];
      LeInverts(EncodeComponent(v[i]), 4);
      ConvertDecides(Le(4), DecodeComponent, EncodeComponent, v[i], true);
    }
  }

  lemma VectorDecides(v: Vector)
    requires VectorWritable(v)
    ensures Decides(Times(|v|, Component()), v, FiniteVector(v))
  {
    ComponentsDecide(v);
    TimesDecides(Component(), v, FiniteComponent);
  }

  // ----- metadata --------------------------------------------------------

  /** Two's complement. */
  function Signed(n: nat): int {
    if n < U64_LIMIT / 2 then n else n - U64_LIMIT
  }

  predicate FiniteFloat(x: F64) { x.Finite? || x.NegZero? }

  function TagOf(v: Value): byte {
    match v
    case Keyword(_) => 1
    case Integer(_) => 2
    case Float(_) => 3
    case Boolean(_) => 4
  }

  function DecodeKeyword(s: string): Option<Value> { Some(Keyword(s)) }
  function EncodeKeyword(v: Value): string { if v.Keyword? then v.text else "" }
  function DecodeInteger(n: nat): Option<Value> { Some(Integer(Signed(n))) }
  function EncodeInteger(v: Value): nat { if v.Integer? then v.number % U64_LIMIT else 0 }
  function DecodeBoolean(n: nat): Option<Value> { if n <= 1 then Some(Boolean(n == 1)) else None }
  function EncodeBoolean(v: Value): nat { if v == Boolean(true) then 1 else 0 }

  function FloatOf(pf: Platform, n: nat): Option<Value> {
    if FiniteFloat(pf.float(n)) then Some(Float(pf.float(n))) else None
  }

  function BitsOf(pf: Platform, v: Value): nat { if v.Float? then pf.bits(v.float) else 0 }

  function DecodeFloat(pf: Platform): nat -> Option<Value> { (n: nat) => FloatOf(pf, n) }
  function EncodeFloat(pf: Platform): Value -> nat { (v: Value) => BitsOf(pf, v) }

  /** What follows an unknown tag cannot be read. */
  function Unknown<T>(): Codec<T> {
    Codec((bytes: seq<byte>, pos: nat) => Err(CorruptStorage), (x: T, pos: nat) => [])
  }

  function ValueBody(pf: Platform): byte -> Codec<Value> {
    (tag: byte) =>
      if tag == 1 then Convert(Text(pf), DecodeKeyword, EncodeKeyword)
      else if tag == 2 then Convert(Le(8), DecodeInteger, EncodeInteger)
      else if tag == 3 then Convert(Le(8), DecodeFloat(pf), EncodeFloat(pf))
      else if tag == 4 then Convert(Le(1), DecodeBoolean, EncodeBoolean)
      else Unknown()
  }

  function ValueCodec(pf: Platform): Codec<Value> {
    Tagged(TagOf, ValueBody(pf))
  }

  /** A value the encoder accepts: an `i64`, a finite double, any shorter text. */
  predicate ValueWritable(pf: Platform, v: Value) {
    match v
    case Keyword(text) => TextWritable(pf, text)
    case Integer(n) => -(U64_LIMIT as int) / 2 <= n < U64_LIMIT / 2
    case Float(x) => FiniteFloat(x) && pf.bits(x) < U64_LIMIT && pf.float(pf.bits(x)) == x
    case Boolean(_) => true
  }

  predicate ValueWithin(pf: Platform, v: Value) { v.Keyword? ==> TextWithin(pf, v.text) }

  /** A stored value comes back, or is refused, by the length of its text alone. */
  lemma ValueDecides(pf: Platform, v: Value)
    requires ValueWritable(pf, v)
    ensures Decides(ValueCodec(pf), v, ValueWithin(pf, v))
  {
    Limits();
    match v {
      case Keyword(text) =>
        TextDecides(pf, text);
        ConvertDecides(Text(pf), DecodeKeyword, EncodeKeyword, v, TextWithin(pf, text));
      case Integer(n) =>
        LeInverts(EncodeInteger(v), 8);
        ConvertInverts(Le(8), DecodeInteger, EncodeInteger, v);
      case Float(x) =>
        LeInverts(pf.bits(x), 8);
        ConvertInverts(Le(8), DecodeFloat(pf), EncodeFloat(pf), v);
      case Boolean(flag) =>
        LeInverts(EncodeBoolean(v), 1);
        ConvertInverts(Le(1), DecodeBoolean, EncodeBoolean, v);
    }
    TaggedDecides(TagOf, ValueBody(pf), v, ValueWithin(pf, v));
  }

  type Entry = (string, Value)

  /** Inserting entries in order; a later one replaces an earlier one. */
  function MetadataOf(entries: seq<Entry>): Metadata {
    if entries == [] then map[]
    else
      var last := entries[|entries| - 1];
      MetadataOf(entries[..|entries| - 1])[last.0 := last.1]
  }

  function Lookup(m: Metadata, key: string): Value { if key in m then m[key] else Boolean(false) }

  function Entries(pf: Platform, m: Metadata): seq<Entry> {
    var keys := pf.keys(m);
    seq(|keys|, i requires 0 <= i < |keys| => (keys[i], Lookup(m, keys[i])))
  }

  ghost predicate MetadataWritable(pf: Platform, m: Metadata) {
    && (forall k :: k in pf.keys(m) <==> k in m)
    && |pf.keys(m)| < U32_LIMIT
    && forall k :: k in m ==> TextWritable(pf, k) && ValueWritable(pf, m[k])
  }

  predicate EntryWithin(pf: Platform, e: Entry) { TextWithin(pf, e.0) && ValueWithin(pf, e.1) }

  ghost predicate MetadataWithin(pf: Platform, m: Metadata) {
    |pf.keys(m)| <= 1_000_000 && forall k :: k in m ==> EntryWithin(pf, (k, m[k]))
  }

  lemma {:induction false} MetadataOfPrefix(pf: Platform, m: Metadata, n: nat)
    requires n <= |pf.keys(m)|
    ensures var built := MetadataOf(Entries(pf, m)[..n]);
      && (forall k :: k in built <==> k in pf.keys(m)[..n])
      && (forall k :: k in built ==> built[k] == Lookup(m, k))
  {
    if n > 0 {
      MetadataOfPrefix(pf, m, n - 1);
      var e := Entries(pf, m);
      assert e[..n][..n - 1] == e[..n - 1];
      assert pf.keys(m)[..n] == pf.keys(m)[..n - 1] + [pf.keys(m)[n - 1]];
    }
  }

  lemma EntriesRebuild(pf: Platform, m: Metadata)
    requires MetadataWritable(pf, m)
    ensures MetadataOf(Entries(pf, m)) == m
  {
    var n := |pf.keys(m)|;
    MetadataOfPrefix(pf, m, n);
    assert Entries(pf, m)[..n] == Entries(pf, m) && pf.keys(m)[..n] == pf.keys(m);
  }

  function DecodeMetadata(entries: seq<Entry>): Option<Metadata> { Some(MetadataOf(entries)) }
  function EncodeMetadata(pf: Platform): Metadata -> seq<Entry> { (m: Metadata) => Entries(pf, m) }

  function EntryList(pf: Platform): Codec<seq<Entry>> {
    Counted(MAX_ITEMS, Pair(Text(pf), ValueCodec(pf)))
  }

  function MetadataCodec(pf: Platform): Codec<Metadata> {
    Convert(EntryList(pf), DecodeMetadata, EncodeMetadata(pf))
  }

  lemma EntryDecides(pf: Platform, e: Entry)
    requires TextWritable(pf, e.0) && ValueWritable(pf, e.1)
    ensures Decides(Pair(Text(pf), ValueCodec(pf)), e, EntryWithin(pf, e))
  {
    TextDecides(pf, e.0);
    ValueDecides(pf, e.1);
    PairDecides(Text(pf), ValueCodec(pf), e, TextWithin(pf, e.0), ValueWithin(pf, e.1));
  }

  lemma EntriesWithin(pf: Platform, m: Metadata)
    requires MetadataWritable(pf, m)
    ensures var entries := Entries(pf, m);
      MetadataWithin(pf, m) <==>
        |entries| <= MAX_ITEMS && forall i :: 0 <= i < |entries| ==> EntryWithin(pf, entries[i])
  {
    var entries := Entries(pf, m);
    forall i | 0 <= i < |entries| ensures entries[i].0 in m && entries[i] == (entries[i].0, m[entries[i].0]) {
      assert entries[i].0 in pf.keys(m);
    }
    if forall i :: 0 <= i < |entries| ==> EntryWithin(pf, entries[i]) {
      forall k | k in m ensures EntryWithin(pf, (k, m[k])) {
        var i :| 0 <= i < |entries| && pf.keys(m)[i] == k;
        assert entries[i] == (k, m[k]);
      }
    }
  }

  lemma MetadataDecides(pf: Platform, m: Metadata)
    requires MetadataWritable(pf, m)
    ensures Decides(MetadataCodec(pf), m, MetadataWithin(pf, m))
  {
    var entries, one := Entries(pf, m), Pair(Text(pf), ValueCodec(pf));
    var ok := (e: Entry) => EntryWithin(pf, e);
    forall i | 0 <= i < |entries| ensures Decides(one, entries[i], ok(entries[i])) {
      assert entries[i].0 in pf.keys(m);
      EntryDecides(pf, entries[i]);
    }
    CountedDecides(MAX_ITEMS, one, entries, ok);
    EntriesWithin(pf, m);
    EntriesRebuild(pf, m);
    ConvertDecides(EntryList(pf), DecodeMetadata, EncodeMetadata(pf), m, MetadataWithin(pf, m));
  }

  // ----- batches ---------------------------------------------------------

  function DecodeVector(dimension: nat): Vector -> Option<Vector> {
    (v: Vector) => if |v| == dimension then Some(v) else None
  }

  function Unchanged(v: Vector): Vector { v }

  function VectorCodec(dimension: nat): Codec<Vector> {
    Convert(Counted(MAX_ITEMS, Component()), DecodeVector(dimension), Unchanged)
  }

  type PointParts = (Id, (Vector, Metadata))

  function DecodePoint(parts: PointParts): Option<UpsertPoint> {
    Some(UpsertPoint(parts.0, parts.1.0, parts.1.1))
  }

  function EncodePoint(p: UpsertPoint): PointParts { (p.id, (p.vector, p.metadata)) }

  function PartsCodec(pf: Platform, dimension: nat): Codec<PointParts> {
    Pair(Text(pf), Pair(VectorCodec(dimension), MetadataCodec(pf)))
  }

  function PointCodec(pf: Platform, dimension: nat): Codec<UpsertPoint> {
    Convert(PartsCodec(pf, dimension), DecodePoint, EncodePoint)
  }

  ghost predicate PointWritable(pf: Platform, dimension: nat, p: UpsertPoint) {
    && TextWritable(pf, p.id) && MetadataWritable(pf, p.metadata)
    && |p.vector| == dimension < U32_LIMIT && VectorWritable(p.vector)
  }

  predicate VectorWithin(v: Vector) { |v| <= 1_000_000 && FiniteVector(v) }

  ghost predicate PointWithin(pf: Platform, p: UpsertPoint) {
    TextWithin(pf, p.id) && VectorWithin(p.vector) && MetadataWithin(pf, p.metadata)
  }

  lemma CountedVectorDecides(dimension: nat, v: Vector)
    requires |v| == dimension < U32_LIMIT && VectorWritable(v)
    ensures Decides(VectorCodec(dimension), v, VectorWithin(v))
  {
    ComponentsDecide(v);
    CountedDecides(MAX_ITEMS, Component(), v, FiniteComponent);
    ConvertDecides(Counted(MAX_ITEMS, Component()), DecodeVector(dimension), Unchanged, v, VectorWithin(v));
  }

  lemma PointDecides(pf: Platform, dimension: nat, p: UpsertPoint)
    requires PointWritable(pf, dimension, p)
    ensures Decides(PointCodec(pf, dimension), p, PointWithin(pf, p))
  {
    var vector, metadata := VectorCodec(dimension), MetadataCodec(pf);
    var short, small := VectorWithin(p.vector), MetadataWithin(pf, p.metadata);
    TextDecides(pf, p.id);
    CountedVectorDecides(dimension, p.vector);
    MetadataDecides(pf, p.metadata);
    PairDecides(vector, metadata, (p.vector, p.metadata), short, small);
    PairDecides(Text(pf), Pair(vector, metadata), EncodePoint(p), TextWithin(pf, p.id), short && small);
    ConvertDecides(PartsCodec(pf, dimension), DecodePoint, EncodePoint, p, PointWithin(pf, p));
  }

  function OperationOf(m: Mutation): byte { if m.Upsert? then 1 else 2 }

  function DecodeUpsert(points: seq<UpsertPoint>): Option<Mutation> { Some(Upsert(points)) }
  function EncodeUpsert(m: Mutation): seq<UpsertPoint> { if m.Upsert? then m.points else [] }
  function DecodeDelete(ids: seq<Id>): Option<Mutation> { if ids == [] then None else Some(Delete(ids)) }
  function EncodeDelete(m: Mutation): seq<Id> { if m.Delete? then m.ids else [] }

  /** The body of a payload, selected by its operation byte. */
  function BatchCodec(pf: Platform, dimension: nat, operation: nat): Codec<Mutation> {
    if operation == 1 then Convert(Counted(MAX_ITEMS, PointCodec(pf, dimension)), DecodeUpsert, EncodeUpsert)
    else if operation == 2 then Convert(Counted(MAX_ITEMS, Text(pf)), DecodeDelete, EncodeDelete)
    else Unknown()
  }

  /** A batch that the encoder accepts, prepared for a collection of this dimension. */
  ghost predicate BatchWritable(pf: Platform, dimension: nat, m: Mutation) {
    match m
    case Upsert(points) =>
      |points| < U32_LIMIT && forall i :: 0 <= i < |points| ==> PointWritable(pf, dimension, points[i])
    case Delete(ids) =>
      0 < |ids| < U32_LIMIT && forall i :: 0 <= i < |ids| ==> TextWritable(pf, ids[i])
  }

  /** A batch within the limits that the decoder enforces and the encoder does not. */
  ghost predicate BatchWithin(pf: Platform, m: Mutation) {
    match m
    case Upsert(points) => |points| <= 1_000_000 && forall i :: 0 <= i < |points| ==> PointWithin(pf, points[i])
    case Delete(ids) => |ids| <= 1_000_000 && forall i :: 0 <= i < |ids| ==> TextWithin(pf, ids[i])
  }

  lemma UpsertDecides(pf: Platform, dimension: nat, points: seq<UpsertPoint>)
    requires BatchWritable(pf, dimension, Upsert(points))
    ensures Decides(BatchCodec(pf, dimension, 1), Upsert(points), BatchWithin(pf, Upsert(points)))
  {
    var one, ok := PointCodec(pf, dimension), (p: UpsertPoint) => PointWithin(pf, p);
    forall i | 0 <= i < |points| ensures Decides(one, points[i], ok(points[i])) {
      PointDecides(pf, dimension, points[i]);
    }
    CountedDecides(MAX_ITEMS, one, points, ok);
    var within := BatchWithin(pf, Upsert(points));
    ConvertDecides(Counted(MAX_ITEMS, one), DecodeUpsert, EncodeUpsert, Upsert(points), within);
  }

  lemma DeleteDecides(pf: Platform, dimension: nat, ids: seq<Id>)
    requires BatchWritable(pf, dimension, Delete(ids))
    ensures Decides(BatchCodec(pf, dimension, 2), Delete(ids), BatchWithin(pf, Delete(ids)))
  {
    var ok := (id: Id) => TextWithin(pf, id);
    forall i | 0 <= i < |ids| ensures Decides(Text(pf), ids[i], ok(ids[i])) {
      TextDecides(pf, ids[i]);
    }
    CountedDecides(MAX_ITEMS, Text(pf), ids, ok);
    var within := BatchWithin(pf, Delete(ids));
    ConvertDecides(Counted(MAX_ITEMS, Text(pf)), DecodeDelete, EncodeDelete, Delete(ids), within);
  }

  lemma BatchDecides(pf: Platform, dimension: nat, m: Mutation)
    requires BatchWritable(pf, dimension, m)
    ensures Decides(BatchCodec(pf, dimension, OperationOf(m) as nat), m, BatchWithin(pf, m))
  {
    match m
    case Upsert(points) => UpsertDecides(pf, dimension, points);
    case Delete(ids) => DeleteDecides(pf, dimension, ids);
  }

  // ----- payloads --------------------------------------------------------

  /** `encode_upsert` and `encode_delete`. */
  function EncodePayload(pf: Platform, dimension: nat, frame: Frame): Payload {
    var operation := OperationOf(frame.mutation);
    [operation] + PutLe(frame.sequence, 8) + BatchCodec(pf, dimension, operation as nat).put(frame.mutation, 9)
  }

  /** The batch behind the header, up to the last byte of the payload. */
  function DecodeBatch(pf: Platform, dimension: nat, payload: Payload): Result<Mutation>
    requires |payload| >= 9
  {
    var batch := BatchCodec(pf, dimension, payload[0] as nat).read(payload, 9);
    if batch.Err? then Err(batch.error)
    else if batch.value.next != |payload| then Err(CorruptStorage)
    else Ok(batch.value.value)
  }

  /**
   `apply_payload`: a record already contained in the segments is skipped before
   its body is looked at; an upsert is prepared again, a delete is not checked.
   */
  function ApplyPayload(pf: Platform, cfg: Config, coll: Coll, payload: Payload): Result<(Coll, set<Id>)> {
    if |payload| < 9 then Err(CorruptStorage)
    else
      var sequence := GetLe(payload[1..9]);
      if sequence <= coll.sequence then Ok((coll, {}))
      else if sequence != coll.sequence + 1 then Err(CorruptStorage)
      else
        var batch := DecodeBatch(pf, cfg.dimension, payload);
        if batch.Err? then Err(batch.error)
        else
          var m := if batch.value.Upsert? then Prepare(cfg, batch.value) else batch;
          if m.Err? then Err(m.error)
          else Ok((Apply(coll, m.value, sequence), Touched(batch.value)))
  }

  /** A logged frame: its batch was encoded, and a delete was checked before. */
  ghost predicate FrameWritable(pf: Platform, cfg: Config, frame: Frame) {
    && frame.sequence < U64_LIMIT && BatchWritable(pf, cfg.dimension, frame.mutation)
    && (frame.mutation.Delete? ==> Prepare(cfg, frame.mutation).Ok?)
  }

  /** The body of a payload decodes to its batch if and only if the batch is within the limits. */
  lemma PayloadDecodesIff(pf: Platform, dimension: nat, frame: Frame)
    requires frame.sequence < U64_LIMIT && BatchWritable(pf, dimension, frame.mutation)
    ensures var payload := EncodePayload(pf, dimension, frame);
      && |payload| >= 9 && GetLe(payload[1..9]) == frame.sequence
      && (BatchWithin(pf, frame.mutation) ==> DecodeBatch(pf, dimension, payload) == Ok(frame.mutation))
      && (!BatchWithin(pf, frame.mutation) ==> DecodeBatch(pf, dimension, payload).Err?)
  {
    var operation := OperationOf(frame.mutation);
    var codec, payload := BatchCodec(pf, dimension, operation as nat), EncodePayload(pf, dimension, frame);
    var body := codec.put(frame.mutation, 9);
    Limits();
    LeRoundTrip(frame.sequence, 8);
    assert payload[0] == operation && payload[1..9] == PutLe(frame.sequence, 8) && payload[9..] == body;
    BatchDecides(pf, dimension, frame.mutation);
    assert Holds(payload, 9, body);
    assert BatchWithin(pf, frame.mutation) ==> codec.read(payload, 9) == Ok(Parsed(frame.mutation, 9 + |body|));
    assert !BatchWithin(pf, frame.mutation) ==> codec.read(payload, 9).Err?;
  }

  /** Applying the bytes of a logged batch replays it, unless it is the next batch and over the limits. */
  lemma PayloadReplaysIff(pf: Platform, cfg: Config, coll: Coll, frame: Frame)
    requires FrameWritable(pf, cfg, frame)
    ensures var applied := ApplyPayload(pf, cfg, coll, EncodePayload(pf, cfg.dimension, frame));
      if frame.sequence == coll.sequence + 1 && !BatchWithin(pf, frame.mutation) then applied.Err?
      else applied == ReplayFrame(cfg, coll, frame)
  {
    PayloadDecodesIff(pf, cfg.dimension, frame);
  }

  /** The next record is refused when its operation is neither 1 nor 2, or when bytes follow its batch. */
  lemma StrayBytesAreRefused(pf: Platform, cfg: Config, coll: Coll, frame: Frame, extra: seq<byte>, payload: Payload)
    requires FrameWritable(pf, cfg, frame) && frame.sequence == coll.sequence + 1 && extra != []
    requires |payload| >= 9 && GetLe(payload[1..9]) == coll.sequence + 1 && payload[0] != 1 && payload[0] != 2
    ensures ApplyPayload(pf, cfg, coll, EncodePayload(pf, cfg.dimension, frame) + extra).Err?
    ensures ApplyPayload(pf, cfg, coll, payload).Err?
  {
    var operation, written := OperationOf(frame.mutation), EncodePayload(pf, cfg.dimension, frame);
    var codec, bytes := BatchCodec(pf, cfg.dimension, operation as nat), written + extra;
    var body := codec.put(frame.mutation, 9);
    Limits();
    LeRoundTrip(frame.sequence, 8);
    assert bytes[0] == operation && bytes[1..9] == PutLe(frame.sequence, 8) && bytes[9..9 + |body|] == body;
    BatchDecides(pf, cfg.dimension, frame.mutation);
    assert Holds(bytes, 9, body);
    assert BatchWithin(pf, frame.mutation) ==> codec.read(bytes, 9) == Ok(Parsed(frame.mutation, 9 + |body|));
    assert !BatchWithin(pf, frame.mutation) ==> codec.read(bytes, 9).Err?;
  }

  /** A delete of one ID too many is encoded, logged and acknowledged, and cannot be replayed. */
  lemma LongDeleteIsLost(pf: Platform, cfg: Config, coll: Coll, ids: seq<Id>)
    requires |ids| == 1_000_001 && "" !in ids && forall i :: 0 <= i < |ids| ==> TextWritable(pf, ids[i])
    requires coll.sequence + 1 < U64_LIMIT
    ensures var frame := Frame(coll.sequence + 1, Delete(ids));
      && FrameWritable(pf, cfg, frame) && ReplayFrame(cfg, coll, frame).Ok?
      && ApplyPayload(pf, cfg, coll, EncodePayload(pf, cfg.dimension, frame)).Err?
  {
    PayloadReplaysIff(pf, cfg, coll, Frame(coll.sequence + 1, Delete(ids)));
  }

  /** What the encoder accepts of prepared batches is writable; it may refuse more, such as 4 GiB in all. */
  ghost predicate EncoderChecks(pf: Platform, cfg: Config) {
    forall batch :: Prepare(cfg, batch).Ok? && cfg.encodable(Prepare(cfg, batch).value) ==>
      BatchWritable(pf, cfg.dimension, Prepare(cfg, batch).value)
  }

  /** The encoder refuses metadata floats that are not finite. */
  lemma NaNIsRefused(pf: Platform, cfg: Config, batch: Mutation, i: nat, key: string)
    requires EncoderChecks(pf, cfg) && batch.Upsert? && Prepare(cfg, batch).Ok?
    requires var m := Prepare(cfg, batch).value;
      i < |m.points| && key in m.points[i].metadata && m.points[i].metadata[key] == Float(NaN)
    ensures !cfg.encodable(Prepare(cfg, batch).value)
  {
    var m := Prepare(cfg, batch).value;
    assert !ValueWritable(pf, m.points[i].metadata[key]);
    assert !PointWritable(pf, cfg.dimension, m.points[i]);
  }
}
