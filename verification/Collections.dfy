/**
 The in-memory collection: a map from point ID to the stored version of that
 point, and the sequence number of the last committed batch. A history of
 committed batches determines every earlier collection, `At(h, n)`.
 */
module Collections {
  import opened Base
  import opened Filters

  type Id = string

  /** Component bit patterns; arithmetic on them is never needed here. */
  type Vector = seq<int>

  datatype UpsertPoint = UpsertPoint(id: Id, vector: Vector, metadata: Metadata)

  datatype StoredPoint = StoredPoint(id: Id, vector: Vector, metadata: Metadata, sequence: nat)

  type Points = map<Id, StoredPoint>

  datatype Coll = Coll(points: Points, sequence: nat)

  /** A batch as a client sends it, or, once prepared, as the log stores it. */
  datatype Mutation =
    | Upsert(points: seq<UpsertPoint>)
    | Delete(ids: seq<Id>)

  /**
   The collection configuration; `prepare` and `score` belong to the metric. A
   prepared batch is `encodable` when its lengths fit 32 bits and its metadata
   floats are finite.
   */
  datatype Config = Config(
    dimension: nat, prepare: Vector -> Option<Vector>, score: (Vector, Vector) -> int, encodable: Mutation -> bool)

  const EMPTY := Coll(map[], 0)

  // ----- batches ---------------------------------------------------------

  function PrepareBatch(cfg: Config, points: seq<UpsertPoint>): (r: Result<seq<UpsertPoint>>)
    ensures r.Ok? ==> |r.value| == |points|
    decreases |points|
  {
    if points == [] then Ok([])
    else
      var init := PrepareBatch(cfg, points[..|points| - 1]);
      if init.Err? then init
      else
        var p := points[|points| - 1];
        if |p.vector| != cfg.dimension then Err(InvalidDimension)
        else if p.id == "" then Err(InvalidQuery)
        else match cfg.prepare(p.vector)
          case None => Err(InvalidVector)
          case Some(v) => Ok(init.value + [p.(vector := v)])
  }

  /** `prepare_upsert` for an upsert, the argument checks for a delete. */
  function Prepare(cfg: Config, m: Mutation): Result<Mutation> {
    match m
    case Upsert(points) =>
      if points == [] then Err(InvalidQuery)
      else
        var batch := PrepareBatch(cfg, points);
        if batch.Err? then Err(batch.error) else Ok(Upsert(batch.value))
    case Delete(ids) =>
      if ids == [] || "" in ids then Err(InvalidQuery) else Ok(m)
  }

  function Touched(m: Mutation): set<Id> {
    match m
    case Upsert(points) => set i | 0 <= i < |points| :: points[i].id
    case Delete(ids) => set id | id in ids
  }

  /** Preparation changes vectors and nothing else. */
  lemma {:induction false} PrepareBatchIs(cfg: Config, points: seq<UpsertPoint>, i: nat)
    requires PrepareBatch(cfg, points).Ok? && i < |points|
    ensures cfg.prepare(points[i].vector).Some?
    ensures PrepareBatch(cfg, points).value[i] == points[i].(vector := cfg.prepare(points[i].vector).value)
    decreases |points|
  {
    if i < |points| - 1 { PrepareBatchIs(cfg, points[..|points| - 1], i); }
  }

  /** The first defect of a point, in the order in which the checks are made. */
  function Defect(cfg: Config, p: UpsertPoint): Option<Error> {
    if |p.vector| != cfg.dimension then Some(InvalidDimension)
    else if p.id == "" then Some(InvalidQuery)
    else if cfg.prepare(p.vector).None? then Some(InvalidVector)
    else None
  }

  /** Point `i` is the first defective one and `e` is what is wrong with it. */
  ghost predicate FirstDefect(cfg: Config, points: seq<UpsertPoint>, i: nat, e: Error) {
    && i < |points| && Defect(cfg, points[i]) == Some(e)
    && forall j :: 0 <= j < i ==> Defect(cfg, points[j]).None?
  }

  /** A batch is refused for its first defective point, and only for one. */
  lemma {:induction false} PrepareBatchDecides(cfg: Config, points: seq<UpsertPoint>)
    ensures PrepareBatch(cfg, points).Ok? <==> forall i :: 0 <= i < |points| ==> Defect(cfg, points[i]).None?
    ensures PrepareBatch(cfg, points).Err? ==>
      exists i: nat :: FirstDefect(cfg, points, i, PrepareBatch(cfg, points).error)
    decreases |points|
  {
    if points != [] {
      var n := |points| - 1;
      var init := points[..n];
      PrepareBatchDecides(cfg, init);
      if PrepareBatch(cfg, init).Err? {
        var i: nat :| FirstDefect(cfg, init, i, PrepareBatch(cfg, init).error);
        assert FirstDefect(cfg, points, i, PrepareBatch(cfg, init).error);
      } else if PrepareBatch(cfg, points).Err? {
        assert forall j :: 0 <= j < n ==> points[j] == init[j];
        assert FirstDefect(cfg, points, n, PrepareBatch(cfg, points).error);
      } else {
        assert forall j :: 0 <= j < n ==> points[j] == init[j];
      }
    }
  }

  /** A batch without a defect keeps its IDs and metadata and has its vectors prepared. */
  ghost predicate Prepared(cfg: Config, points: seq<UpsertPoint>, r: Result<seq<UpsertPoint>>) {
    && (r.Ok? <==> forall i :: 0 <= i < |points| ==> Defect(cfg, points[i]).None?)
    && (r.Err? ==> exists i: nat :: FirstDefect(cfg, points, i, r.error))
    && (r.Ok? ==> |r.value| == |points| && forall i :: 0 <= i < |points| ==>
          && r.value[i].id == points[i].id && r.value[i].metadata == points[i].metadata
          && cfg.prepare(points[i].vector) == Some(r.value[i].vector))
  }

  lemma PrepareBatchMeans(cfg: Config, points: seq<UpsertPoint>)
    ensures Prepared(cfg, points, PrepareBatch(cfg, points))
  {
    var r := PrepareBatch(cfg, points);
    PrepareBatchDecides(cfg, points);
    if r.Ok? {
      forall i | 0 <= i < |points| ensures r.value[i] == points[i].(vector := cfg.prepare(points[i].vector).value)
        && cfg.prepare(points[i].vector).Some?
      {
        PrepareBatchIs(cfg, points, i);
      }
    }
  }

  /** Preparation keeps the IDs of a batch. */
  lemma PrepareTouches(cfg: Config, m: Mutation)
    requires Prepare(cfg, m).Ok?
    ensures Touched(Prepare(cfg, m).value) == Touched(m)
  {
    if m.Upsert? {
      var batch := PrepareBatch(cfg, m.points).value;
      forall i | 0 <= i < |batch| ensures batch[i].id == m.points[i].id { PrepareBatchIs(cfg, m.points, i); }
    }
  }

  // ----- applying a batch ------------------------------------------------

  function Stamp(p: UpsertPoint, sequence: nat): StoredPoint {
    StoredPoint(p.id, p.vector, p.metadata, sequence)
  }

  /** Inserts a batch in order: the last duplicate of an ID wins. */
  function PutAll(points: Points, batch: seq<UpsertPoint>, sequence: nat): Points
    decreases |batch|
  {
    if batch == [] then points
    else
      var last := batch[|batch| - 1];
      PutAll(points, batch[..|batch| - 1], sequence)[last.id := Stamp(last, sequence)]
  }

  function Apply(c: Coll, m: Mutation, sequence: nat): Coll {
    match m
    case Upsert(points) => Coll(PutAll(c.points, points, sequence), sequence)
    case Delete(ids) => Coll(c.points - Touched(m), sequence)
  }

  /** The collections `a` and `b` hold the same version of `id`, or neither holds it. */
  ghost predicate SameOn(a: Points, b: Points, id: Id) {
    (id in a <==> id in b) && (id in a ==> a[id] == b[id])
  }

  /** A batch stamps the IDs it touches and leaves every other ID alone. */
  lemma {:induction false} PutAllOn(points: Points, batch: seq<UpsertPoint>, sequence: nat, id: Id)
    ensures var r := PutAll(points, batch, sequence);
      if id in Touched(Upsert(batch)) then id in r && r[id].sequence == sequence && r[id].id == id
      else SameOn(points, r, id)
    decreases |batch|
  {
    if batch != [] {
      var n := |batch| - 1;
      var init := batch[..n];
      PutAllOn(points, init, sequence, id);
      if id in Touched(Upsert(batch)) {
        var i :| 0 <= i < |batch| && batch[i].id == id;
        if i < n { assert init[i].id == id; }
      } else {
        assert batch[n].id in Touched(Upsert(batch));
        forall i | 0 <= i < n ensures init[i].id != id {
          assert batch[i].id in Touched(Upsert(batch));
        }
      }
    }
  }

  lemma ApplyOn(c: Coll, m: Mutation, sequence: nat, id: Id)
    ensures var r := Apply(c, m, sequence);
      if id in Touched(m) then id in r.points ==> r.points[id].sequence == sequence && r.points[id].id == id
      else SameOn(c.points, r.points, id)
  {
    if m.Upsert? { PutAllOn(c.points, m.points, sequence, id); }
  }

  // ----- preparing a prepared batch again --------------------------------

  predicate IsLast(batch: seq<UpsertPoint>, i: nat) {
    i < |batch| && forall j :: i < j < |batch| ==> batch[j].id != batch[i].id
  }

  lemma {:induction false} LastWins(points: Points, batch: seq<UpsertPoint>, sequence: nat, i: nat)
    requires IsLast(batch, i)
    ensures batch[i].id in PutAll(points, batch, sequence)
    ensures PutAll(points, batch, sequence)[batch[i].id] == Stamp(batch[i], sequence)
    decreases |batch|
  {
    if i < |batch| - 1 { LastWins(points, batch[..|batch| - 1], sequence, i); }
  }

  lemma {:induction false} LastExists(batch: seq<UpsertPoint>, id: Id) returns (i: nat)
    requires id in Touched(Upsert(batch))
    ensures IsLast(batch, i) && batch[i].id == id
    decreases |batch|
  {
    var n := |batch| - 1;
    if batch[n].id == id {
      i := n;
    } else {
      var k :| 0 <= k < |batch| && batch[k].id == id;
      assert batch[..n][k].id == id;
      i := LastExists(batch[..n], id);
      assert forall j :: i < j < n ==> batch[..n][j].id != id;
    }
  }

  /**
   Log replay prepares an upsert again. A batch is stable when that is accepted and changes
   no vector, except in points that the batch itself overwrites.
   */
  predicate Stable(cfg: Config, m: Mutation) {
    && Prepare(cfg, m).Ok?
    && (m.Upsert? ==> forall i :: 0 <= i < |m.points| && IsLast(m.points, i) ==>
          cfg.prepare(m.points[i].vector) == Some(m.points[i].vector))
  }

  /** A batch as replay applies it. */
  function Again(cfg: Config, m: Mutation): Mutation {
    if Prepare(cfg, m).Ok? then Prepare(cfg, m).value else m
  }

  lemma AgainTouches(cfg: Config, m: Mutation)
    ensures Touched(Again(cfg, m)) == Touched(m)
  {
    if Prepare(cfg, m).Ok? { PrepareTouches(cfg, m); }
  }

  /** Replaying a batch has the effect of the batch if and only if the batch is stable. */
  lemma StableIff(cfg: Config, c: Coll, m: Mutation, sequence: nat)
    requires Prepare(cfg, m).Ok?
    ensures Apply(c, Prepare(cfg, m).value, sequence) == Apply(c, m, sequence) <==> Stable(cfg, m)
  {
    if m.Upsert? {
      var batch := PrepareBatch(cfg, m.points).value;
      forall i: nat | IsLast(m.points, i)
        ensures IsLast(batch, i) && cfg.prepare(m.points[i].vector).Some?
        ensures batch[i] == m.points[i].(vector := cfg.prepare(m.points[i].vector).value)
      {
        forall j | i <= j < |batch| ensures batch[j].id == m.points[j].id { PrepareBatchIs(cfg, m.points, j); }
        PrepareBatchIs(cfg, m.points, i);
      }
      if Stable(cfg, m) {
        PrepareTouches(cfg, m);
        LastsDecide(c.points, m.points, batch, sequence);
      } else {
        var i: nat :| IsLast(m.points, i) && cfg.prepare(m.points[i].vector) != Some(m.points[i].vector);
        PrepareBatchIs(cfg, m.points, i);
        LastWins(c.points, m.points, sequence, i);
        LastWins(c.points, batch, sequence, i);
      }
    }
  }

  lemma LastsDecide(points: Points, batch: seq<UpsertPoint>, other: seq<UpsertPoint>, sequence: nat)
    requires |other| == |batch| && Touched(Upsert(other)) == Touched(Upsert(batch))
    requires forall i: nat :: IsLast(batch, i) ==> IsLast(other, i) && other[i] == batch[i]
    ensures PutAll(points, other, sequence) == PutAll(points, batch, sequence)
  {
    var a, b := PutAll(points, other, sequence), PutAll(points, batch, sequence);
    forall id ensures SameOn(a, b, id) {
      PutAllOn(points, other, sequence, id);
      PutAllOn(points, batch, sequence, id);
      if id in Touched(Upsert(batch)) {
        var i := LastExists(batch, id);
        LastWins(points, other, sequence, i);
        LastWins(points, batch, sequence, i);
      }
    }
    SameEverywhere(a, b);
  }

  lemma SameEverywhere(a: Points, b: Points)
    requires forall id :: SameOn(a, b, id)
    ensures a == b
  {
    forall id ensures id in a <==> id in b { assert SameOn(a, b, id); }
    forall id | id in a ensures a[id] == b[id] { assert SameOn(a, b, id); }
  }

  /** `replace_persisted_points`: swap in the mapped copy of an unchanged version. */
  function ReplacePersisted(coll: Coll, seg: Points): Coll {
    coll.(points := map id | id in coll.points ::
      if id in seg && seg[id].sequence == coll.points[id].sequence then seg[id] else coll.points[id])
  }

  // ----- histories -------------------------------------------------------

  /** The collection after the first `n` committed batches. */
  function At(h: seq<Mutation>, n: nat): (c: Coll)
    requires n <= |h|
    ensures c.sequence == n
  {
    if n == 0 then EMPTY else Apply(At(h, n - 1), h[n - 1], n)
  }

  /** The IDs touched by the batches numbered `lo + 1` to `hi`. */
  function Changed(h: seq<Mutation>, lo: nat, hi: nat): (ids: set<Id>)
    requires lo <= hi <= |h|
    decreases hi - lo
  {
    if lo == hi then {} else Changed(h, lo, hi - 1) + Touched(h[hi - 1])
  }

  lemma {:induction false} AtPrefix(h: seq<Mutation>, g: seq<Mutation>, n: nat)
    requires n <= |h| && n <= |g| && h[..n] == g[..n]
    ensures At(h, n) == At(g, n)
  {
    if n > 0 {
      assert h[..n - 1] == h[..n][..n - 1] == g[..n - 1];
      assert h[n - 1] == h[..n][n - 1] == g[n - 1];
      AtPrefix(h, g, n - 1);
    }
  }

  lemma {:induction false} ChangedPrefix(h: seq<Mutation>, g: seq<Mutation>, lo: nat, hi: nat)
    requires lo <= hi <= |h| && hi <= |g| && h[..hi] == g[..hi]
    ensures Changed(h, lo, hi) == Changed(g, lo, hi)
    decreases hi - lo
  {
    if lo < hi {
      assert h[..hi - 1] == h[..hi][..hi - 1] == g[..hi - 1];
      assert h[hi - 1] == h[..hi][hi - 1] == g[hi - 1];
      ChangedPrefix(h, g, lo, hi - 1);
    }
  }

  lemma {:induction false} ChangedSplit(h: seq<Mutation>, lo: nat, mid: nat, hi: nat)
    requires lo <= mid <= hi <= |h|
    ensures Changed(h, lo, hi) == Changed(h, lo, mid) + Changed(h, mid, hi)
    decreases hi - mid
  {
    if mid < hi {
      ChangedSplit(h, lo, mid, hi - 1);
    }
  }

  lemma {:induction false} Untouched(h: seq<Mutation>, lo: nat, hi: nat, id: Id)
    requires lo <= hi <= |h| && id !in Changed(h, lo, hi)
    ensures SameOn(At(h, lo).points, At(h, hi).points, id)
    decreases hi - lo
  {
    if lo < hi {
      Untouched(h, lo, hi - 1, id);
      ApplyOn(At(h, hi - 1), h[hi - 1], hi, id);
    }
  }

  /** A live version carries the number of the batch that wrote it, and has not changed since. */
  lemma {:induction false} VersionOrigin(h: seq<Mutation>, n: nat, id: Id)
    requires n <= |h| && id in At(h, n).points
    ensures var s := At(h, n).points[id].sequence;
      && 1 <= s <= n
      && id !in Changed(h, s, n)
      && id in At(h, s).points && At(h, s).points[id] == At(h, n).points[id]
  {
    var s := At(h, n).points[id].sequence;
    if n > 0 {
      ApplyOn(At(h, n - 1), h[n - 1], n, id);
      if id !in Touched(h[n - 1]) { VersionOrigin(h, n - 1, id); }
    }
  }

  /** An ID and a sequence number determine the stored version. */
  lemma VersionsAreUnique(h: seq<Mutation>, a: nat, b: nat, id: Id)
    requires a <= |h| && b <= |h|
    requires id in At(h, a).points && id in At(h, b).points
    requires At(h, a).points[id].sequence == At(h, b).points[id].sequence
    ensures At(h, a).points[id] == At(h, b).points[id]
  {
    VersionOrigin(h, a, id);
    VersionOrigin(h, b, id);
  }

  // ----- what a history means --------------------------------------------

  /** The batch names `id`. */
  ghost predicate Mentions(m: Mutation, id: Id) {
    match m
    case Upsert(points) => exists i :: 0 <= i < |points| && points[i].id == id
    case Delete(ids) => id in ids
  }

  /** Of the first `n` batches, `h[s]` is the last to name `id`. */
  ghost predicate LastMention(h: seq<Mutation>, s: nat, n: nat, id: Id) {
    s < n <= |h| && Mentions(h[s], id) && forall t :: s < t < n ==> !Mentions(h[t], id)
  }

  /** The point that batch `s` stores for an ID: the last one of that ID in the batch. */
  ghost predicate StoresLast(m: Mutation, s: nat, id: Id, v: StoredPoint) {
    && m.Upsert? && v.id == id && v.sequence == s
    && exists i: nat :: IsLast(m.points, i) && m.points[i] == UpsertPoint(id, v.vector, v.metadata)
  }

  /** One batch: a deleted ID is gone, an upserted one holds the last point of that ID, others stay. */
  lemma ApplyMeans(c: Coll, m: Mutation, s: nat, id: Id)
    ensures var r := Apply(c, m, s).points;
      if !Mentions(m, id) then SameOn(c.points, r, id)
      else (id in r <==> m.Upsert?) && (m.Upsert? ==> StoresLast(m, s, id, r[id]))
  {
    if m.Upsert? {
      PutAllOn(c.points, m.points, s, id);
      if Mentions(m, id) {
        var i := LastExists(m.points, id);
        LastWins(c.points, m.points, s, i);
      }
    }
  }

  /** `after` is `before` with the batch upserted: of each ID its last point, with the vector prepared. */
  ghost predicate Upserted(cfg: Config, batch: seq<UpsertPoint>, at: nat, before: Points, after: Points) {
    forall id :: if Mentions(Upsert(batch), id) then id in after && StoresPrepared(cfg, batch, at, id, after[id])
                 else SameOn(before, after, id)
  }

  ghost predicate StoresPrepared(cfg: Config, batch: seq<UpsertPoint>, at: nat, id: Id, v: StoredPoint) {
    && v.id == id && v.sequence == at
    && exists i: nat :: IsLast(batch, i) && batch[i].id == id && batch[i].metadata == v.metadata
                        && cfg.prepare(batch[i].vector) == Some(v.vector)
  }

  lemma PreparedIsLast(cfg: Config, batch: seq<UpsertPoint>, i: nat)
    requires PrepareBatch(cfg, batch).Ok?
    ensures IsLast(PrepareBatch(cfg, batch).value, i) <==> IsLast(batch, i)
  {
    var prepared := PrepareBatch(cfg, batch).value;
    forall j | 0 <= j < |batch| ensures prepared[j].id == batch[j].id { PrepareBatchIs(cfg, batch, j); }
  }

  lemma UpsertMeans(cfg: Config, c: Coll, batch: seq<UpsertPoint>, at: nat)
    requires PrepareBatch(cfg, batch).Ok?
    ensures Upserted(cfg, batch, at, c.points, Apply(c, Upsert(PrepareBatch(cfg, batch).value), at).points)
  {
    var prepared := PrepareBatch(cfg, batch).value;
    var after := Apply(c, Upsert(prepared), at).points;
    forall id ensures if Mentions(Upsert(batch), id) then id in after && StoresPrepared(cfg, batch, at, id, after[id])
      else SameOn(c.points, after, id)
    {
      ApplyMeans(c, Upsert(prepared), at, id);
      forall j | 0 <= j < |batch| ensures prepared[j].id == batch[j].id { PrepareBatchIs(cfg, batch, j); }
      if Mentions(Upsert(batch), id) {
        var i: nat :| IsLast(prepared, i) && prepared[i] == UpsertPoint(id, after[id].vector, after[id].metadata);
        PreparedIsLast(cfg, batch, i);
        PrepareBatchIs(cfg, batch, i);
      }
    }
  }

  /** `after` is `before` without the listed IDs. */
  ghost predicate Deleted(ids: seq<Id>, before: Points, after: Points) {
    && (forall id :: id in after <==> id in before && id !in ids)
    && (forall id :: id in after ==> after[id] == before[id])
  }

  /**
   An ID is live after `n` batches if and only if the last of them to name it was an upsert, and
   then it holds the last point of that ID in that batch, stamped with the number of the batch.
   */
  lemma {:induction false} AtMeans(h: seq<Mutation>, n: nat, id: Id)
    requires n <= |h|
    ensures id in At(h, n).points <==> exists s: nat :: LastMention(h, s, n, id) && h[s].Upsert?
    ensures id in At(h, n).points ==>
      exists s: nat :: LastMention(h, s, n, id) && StoresLast(h[s], s + 1, id, At(h, n).points[id])
    decreases n
  {
    if n > 0 {
      ApplyMeans(At(h, n - 1), h[n - 1], n, id);
      if Mentions(h[n - 1], id) {
        assert LastMention(h, n - 1, n, id);
        forall s: nat | LastMention(h, s, n, id) ensures s == n - 1 {}
      } else {
        AtMeans(h, n - 1, id);
        forall s: nat ensures LastMention(h, s, n, id) <==> LastMention(h, s, n - 1, id) {}
        if id in At(h, n).points {
          var s: nat :| LastMention(h, s, n - 1, id) && StoresLast(h[s], s + 1, id, At(h, n).points[id]);
          assert LastMention(h, s, n, id);
        }
        if s: nat :| LastMention(h, s, n, id) && h[s].Upsert? {
          assert LastMention(h, s, n - 1, id);
        }
      }
    }
  }

  /** A deleted ID is in no later collection until it is upserted again. */
  lemma DeletedStaysGone(h: seq<Mutation>, s: nat, n: nat, id: Id)
    requires s < n <= |h| && h[s].Delete? && id in h[s].ids
    requires forall t :: s < t < n && h[t].Upsert? ==> !Mentions(h[t], id)
    ensures id !in At(h, n).points
  {
    AtMeans(h, n, id);
    forall t: nat | LastMention(h, t, n, id) ensures h[t].Delete? {
      assert t < s ==> !Mentions(h[s], id);
    }
  }
}
