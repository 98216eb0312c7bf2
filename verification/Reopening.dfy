/**
 What opening a directory demands and yields, without the loops that do it: which
 chains of segments load, which version of an ID a chain holds, and which logs replay.
 */
module Reopening {
  import opened Base
  import opened Collections
  import opened Durability

  // ----- the chain of segments -------------------------------------------

  /** The manifest names one to nine different segments. */
  ghost predicate NamesOk(m: Manifest) {
    1 <= |m.names| <= 9 && forall i, j :: 0 <= i < j < |m.names| ==> m.names[i] != m.names[j]
  }

  /** Segment `i` may follow the ones before it: the first is full, the others are newer deltas. */
  ghost predicate Follows(files: map<nat, Segment>, m: Manifest, i: nat)
    requires i < |m.names|
  {
    && m.names[i] in files
    && var seg := files[m.names[i]];
    && (seg.full <==> i == 0)
    && (i == 0 ==> forall id :: id in seg.points ==> seg.points[id].sequence <= seg.sequence)
    && (i > 0 ==> m.names[i - 1] in files && files[m.names[i - 1]].sequence < seg.sequence)
    && (i + 1 == |m.names| ==> seg.sequence == m.sequence)
  }

  ghost predicate Chained(files: map<nat, Segment>, m: Manifest, k: nat)
    requires k <= |m.names|
  {
    forall i: nat {:trigger Follows(files, m, i)} :: i < k ==> Follows(files, m, i)
  }

  /** Segment `t` neither holds nor buries `id`. */
  ghost predicate Silent(files: map<nat, Segment>, m: Manifest, t: nat, id: Id)
    requires t < |m.names|
  {
    m.names[t] in files && id !in files[m.names[t]].points && id !in files[m.names[t]].tombstones
  }

  /** Segment `j` decides about `id` among the first `k`: it holds it, and every later one is silent. */
  ghost predicate Decides(files: map<nat, Segment>, m: Manifest, k: nat, j: nat, id: Id)
    requires k <= |m.names|
  {
    && j < k && m.names[j] in files
    && id in files[m.names[j]].points && (j > 0 ==> id !in files[m.names[j]].tombstones)
    && forall t: nat {:trigger Silent(files, m, t, id)} :: j < t < k ==> Silent(files, m, t, id)
  }

  /** The points of the first `k` segments: of each ID the version of the segment that decides about it. */
  ghost predicate HoldsChain(files: map<nat, Segment>, m: Manifest, k: nat, points: Points)
    requires k <= |m.names|
  {
    && (forall id :: id in points ==> exists j: nat :: Decides(files, m, k, j, id))
    && (forall j: nat, id {:trigger Decides(files, m, k, j, id)} :: Decides(files, m, k, j, id) ==>
          id in points && points[id] == files[m.names[j]].points[id])
  }

  /** `x` is the graph of segment `j`, which has points. */
  ghost predicate GraphOf(files: map<nat, Segment>, m: Manifest, k: nat, j: nat, x: IndexSegment)
    requires k <= |m.names|
  {
    && j < k && m.names[j] in files && files[m.names[j]].points != map[]
    && x == IndexSegment(files[m.names[j]].sequence, files[m.names[j]].points)
  }

  ghost predicate SomeGraph(files: map<nat, Segment>, m: Manifest, k: nat, x: IndexSegment)
    requires k <= |m.names|
  {
    exists j: nat :: GraphOf(files, m, k, j, x)
  }

  ghost predicate OnlyGraphs(files: map<nat, Segment>, m: Manifest, k: nat, indexes: seq<IndexSegment>)
    requires k <= |m.names|
  {
    forall i :: 0 <= i < |indexes| ==> SomeGraph(files, m, k, indexes[i])
  }

  ghost predicate AllGraphs(files: map<nat, Segment>, m: Manifest, k: nat, indexes: seq<IndexSegment>)
    requires k <= |m.names|
  {
    forall j: nat, x {:trigger GraphOf(files, m, k, j, x)} :: GraphOf(files, m, k, j, x) ==> x in indexes
  }

  ghost predicate Ascending(indexes: seq<IndexSegment>) {
    forall i, j :: 0 <= i < j < |indexes| ==> indexes[i].sequence < indexes[j].sequence
  }

  /** The graphs of the first `k` segments: one for each segment that has points, in ascending order. */
  ghost predicate HoldsGraphs(files: map<nat, Segment>, m: Manifest, k: nat, indexes: seq<IndexSegment>)
    requires k <= |m.names|
  {
    OnlyGraphs(files, m, k, indexes) && AllGraphs(files, m, k, indexes) && Ascending(indexes)
  }

  lemma ChainGrows(files: map<nat, Segment>, m: Manifest, k: nat)
    requires 0 < k <= |m.names|
    ensures Chained(files, m, k) <==> Chained(files, m, k - 1) && Follows(files, m, k - 1)
  {
  }

  lemma DecidesGrows(files: map<nat, Segment>, m: Manifest, k: nat, j: nat, id: Id)
    requires 0 < k <= |m.names| && j < k - 1
    ensures Decides(files, m, k, j, id) <==> Decides(files, m, k - 1, j, id) && Silent(files, m, k - 1, id)
  {
  }

  lemma OverlayHolds(files: map<nat, Segment>, m: Manifest, k: nat, points: Points)
    requires 0 < k <= |m.names| && Follows(files, m, k - 1) && HoldsChain(files, m, k - 1, points)
    ensures m.names[k - 1] in files && HoldsChain(files, m, k, Overlay(points, files[m.names[k - 1]]))
  {
    var seg := files[m.names[k - 1]];
    var after := Overlay(points, seg);
    forall id | id in after ensures exists j: nat :: Decides(files, m, k, j, id) {
      if id in seg.points {
        assert Decides(files, m, k, k - 1, id);
      } else {
        var j: nat :| Decides(files, m, k - 1, j, id);
        DecidesGrows(files, m, k, j, id);
        assert Decides(files, m, k, j, id);
      }
    }
    forall j: nat, id | Decides(files, m, k, j, id)
      ensures id in after && after[id] == files[m.names[j]].points[id]
    {
      if j < k - 1 {
        DecidesGrows(files, m, k, j, id);
        assert Decides(files, m, k - 1, j, id);
      }
    }
  }

  lemma PushOnly(files: map<nat, Segment>, m: Manifest, k: nat, indexes: seq<IndexSegment>, seg: Segment)
    requires 0 < k <= |m.names| && m.names[k - 1] in files && files[m.names[k - 1]] == seg
    requires OnlyGraphs(files, m, k - 1, indexes)
    ensures OnlyGraphs(files, m, k, PushGraph(indexes, seg))
  {
    var after := PushGraph(indexes, seg);
    forall i | 0 <= i < |after| ensures SomeGraph(files, m, k, after[i]) {
      if i < |indexes| {
        assert SomeGraph(files, m, k - 1, indexes[i]);
        var j: nat :| GraphOf(files, m, k - 1, j, indexes[i]);
        assert GraphOf(files, m, k, j, after[i]);
      } else {
        assert GraphOf(files, m, k, k - 1, after[i]);
      }
    }
  }

  lemma PushAll(files: map<nat, Segment>, m: Manifest, k: nat, indexes: seq<IndexSegment>, seg: Segment)
    requires 0 < k <= |m.names| && m.names[k - 1] in files && files[m.names[k - 1]] == seg
    requires AllGraphs(files, m, k - 1, indexes)
    ensures AllGraphs(files, m, k, PushGraph(indexes, seg))
  {
    var after := PushGraph(indexes, seg);
    forall j: nat, x | GraphOf(files, m, k, j, x) ensures x in after {
      if j < k - 1 {
        assert GraphOf(files, m, k - 1, j, x);
      } else {
        assert after[|indexes|] == x;
      }
    }
  }

  lemma PushAscends(indexes: seq<IndexSegment>, seg: Segment)
    requires Ascending(indexes) && forall i :: 0 <= i < |indexes| ==> indexes[i].sequence < seg.sequence
    ensures Ascending(PushGraph(indexes, seg))
  {
  }

  /**
   The first `k` segments load if and only if they chain, and then they hold of each ID the version
   that no later segment replaces or buries.
   */
  lemma {:induction false} LoadDecides(files: map<nat, Segment>, m: Manifest, k: nat)
    requires k <= |m.names|
    ensures var r := LoadSegments(files, m, k);
      && (r.Ok? <==> Chained(files, m, k)) && (r.Err? ==> r.error == CorruptStorage)
      && (r.Ok? ==>
            && HoldsChain(files, m, k, r.value.coll.points)
            && HoldsGraphs(files, m, k, r.value.indexes)
            && (k == 0 ==> r.value.coll.sequence == 0)
            && (k > 0 ==> Follows(files, m, k - 1) && r.value.coll.sequence == files[m.names[k - 1]].sequence)
            && (forall i :: 0 <= i < |r.value.indexes| ==>
                  k > 0 && r.value.indexes[i].sequence <= r.value.coll.sequence))
  {
    if k > 0 {
      LoadDecides(files, m, k - 1);
      ChainGrows(files, m, k);
      if Chained(files, m, k - 1) {
        var before := LoadSegments(files, m, k - 1).value;
        assert LoadSegments(files, m, k).Ok? <==> Follows(files, m, k - 1);
        if Follows(files, m, k - 1) {
          OverlayHolds(files, m, k, before.coll.points);
          var seg := files[m.names[k - 1]];
          PushOnly(files, m, k, before.indexes, seg);
          PushAll(files, m, k, before.indexes, seg);
          PushAscends(before.indexes, seg);
        }
      }
    } else {
      assert Chained(files, m, 0);
    }
  }

  // ----- the log ---------------------------------------------------------

  /** The highest number among the start and the first `i` frames. */
  ghost function HighWater(start: nat, wal: seq<Frame>, i: nat): nat
    requires i <= |wal|
  {
    if i == 0 then start
    else
      var before := HighWater(start, wal, i - 1);
      if wal[i - 1].sequence > before then wal[i - 1].sequence else before
  }

  /** Frame `i` is new: nothing before it has its number or a higher one. */
  ghost predicate IsNew(start: nat, wal: seq<Frame>, i: nat)
    requires i < |wal|
  {
    wal[i].sequence > HighWater(start, wal, i)
  }

  /** Frame `i` leaves no gap and, if it is new, can be prepared. */
  ghost predicate Continues(cfg: Config, start: nat, wal: seq<Frame>, i: nat)
    requires i < |wal|
  {
    IsNew(start, wal, i) ==>
      wal[i].sequence == HighWater(start, wal, i) + 1 && Prepare(cfg, wal[i].mutation).Ok?
  }

  ghost predicate Replays(cfg: Config, start: nat, wal: seq<Frame>) {
    forall i: nat {:trigger Continues(cfg, start, wal, i)} :: i < |wal| ==> Continues(cfg, start, wal, i)
  }

  /** A new frame names `id`. */
  ghost predicate Renews(start: nat, wal: seq<Frame>, id: Id) {
    exists i: nat {:trigger IsNew(start, wal, i)} :: i < |wal| && IsNew(start, wal, i) && Mentions(wal[i].mutation, id)
  }

  lemma {:induction false} HighWaterPrefix(start: nat, wal: seq<Frame>, n: nat, i: nat)
    requires i <= n <= |wal|
    ensures HighWater(start, wal[..n], i) == HighWater(start, wal, i)
  {
    if i > 0 { HighWaterPrefix(start, wal, n, i - 1); }
  }

  lemma PrefixAgrees(cfg: Config, start: nat, wal: seq<Frame>, n: nat, i: nat)
    requires i < n <= |wal|
    ensures Continues(cfg, start, wal[..n], i) <==> Continues(cfg, start, wal, i)
    ensures IsNew(start, wal[..n], i) <==> IsNew(start, wal, i)
  {
    HighWaterPrefix(start, wal, n, i);
  }

  lemma ReplaysNext(cfg: Config, start: nat, wal: seq<Frame>, n: nat)
    requires |wal| == n + 1
    ensures Replays(cfg, start, wal) <==> Replays(cfg, start, wal[..n]) && Continues(cfg, start, wal, n)
  {
    forall i: nat | i < n ensures Continues(cfg, start, wal[..n], i) <==> Continues(cfg, start, wal, i) {
      PrefixAgrees(cfg, start, wal, n, i);
    }
  }

  lemma RenewsNext(cfg: Config, start: nat, wal: seq<Frame>, n: nat, id: Id)
    requires |wal| == n + 1
    ensures Renews(start, wal, id) <==>
      Renews(start, wal[..n], id) || (IsNew(start, wal, n) && Mentions(wal[n].mutation, id))
  {
    forall i: nat | i < n ensures IsNew(start, wal[..n], i) <==> IsNew(start, wal, i) {
      PrefixAgrees(cfg, start, wal, n, i);
    }
  }

  /** A log replays if and only if every frame continues it; the IDs of the new frames are dirty. */
  lemma {:induction false} ReplayDecides(cfg: Config, coll: Coll, wal: seq<Frame>)
    ensures var r, start := ReplayWal(cfg, coll, wal), coll.sequence;
      && (r.Ok? <==> Replays(cfg, start, wal))
      && (r.Ok? ==>
            && r.value.0.sequence == HighWater(start, wal, |wal|)
            && forall id :: id in r.value.1 <==> Renews(start, wal, id))
    decreases |wal|
  {
    if wal != [] {
      var n, start := |wal| - 1, coll.sequence;
      ReplayDecides(cfg, coll, wal[..n]);
      HighWaterPrefix(start, wal, n, n);
      ReplaysNext(cfg, start, wal, n);
      forall id ensures Renews(start, wal, id) <==>
        Renews(start, wal[..n], id) || (IsNew(start, wal, n) && id in Touched(wal[n].mutation))
      {
        RenewsNext(cfg, start, wal, n, id);
        assert Mentions(wal[n].mutation, id) <==> id in Touched(wal[n].mutation);
      }
    }
  }

  // ----- the directory ---------------------------------------------------

  /** A directory opens: its manifest, if there is one, is readable, its segments chain and its log continues them. */
  ghost predicate Opens(cfg: Config, disk: Disk) {
    match disk.manifest
    case None => Replays(cfg, 0, disk.wal)
    case Some(m) => NamesOk(m) && Chained(disk.files, m, |m.names|) && Replays(cfg, m.sequence, disk.wal)
  }

  lemma RecoverDecides(cfg: Config, disk: Disk)
    ensures Recover(cfg, disk).Ok? <==> Opens(cfg, disk)
  {
    match disk.manifest
    case None => ReplayDecides(cfg, EMPTY, disk.wal);
    case Some(m) =>
      if NamesOk(m) {
        LoadDecides(disk.files, m, |m.names|);
        if Chained(disk.files, m, |m.names|) {
          ReplayDecides(cfg, LoadSegments(disk.files, m, |m.names|).value.coll, disk.wal);
        }
      }
  }
}
